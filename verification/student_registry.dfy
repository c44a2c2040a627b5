/** The three structures of `StudentManager` in week3/StudentManager.java
    and what keeps them in agreement: the same `Student` objects held in
    insertion order (`ArrayList`), by id (`HashMap`) and in `compareTo` order
    (`TreeSet`). The tree set is modelled as the sequence of its elements in
    ascending order, read from the heap, so that updating a student in place
    changes where it belongs. Also the static field validator. */
module StudentRegistry {
  import opened Wrappers
  import opened Text
  import opened Seqs
  import opened Students

  // ------------------------------------------------------ sequences of students

  /** The ids of a sequence of students, in order. */
  function Ids(s: seq<Student>): (r: seq<int32>)
    reads s
    ensures |r| == |s|
    ensures forall i :: 0 <= i < |s| ==> r[i] == s[i].id
  {
    if s == [] then [] else [s[0].id] + Ids(s[1..])
  }

  /** No two positions hold students with the same id. */
  predicate DistinctIds(s: seq<Student>)
    reads s
  {
    forall i, j :: 0 <= i < j < |s| ==> s[i].id != s[j].id
  }

  /** Distinct ids, said of the students or of their ids. */
  lemma DistinctIdsNoDuplicates(s: seq<Student>)
    ensures DistinctIds(s) <==> NoDuplicates(Ids(s))
  {
  }

  /** Students with distinct ids are distinct objects. */
  lemma DistinctIdsDistinctStudents(s: seq<Student>)
    requires DistinctIds(s)
    ensures NoDuplicates(s)
  {
    forall i, j | 0 <= i < j < |s| ensures s[i] != s[j] {
      assert s[i].id != s[j].id;
    }
  }

  /** Two duplicate-free sequences with the same members have the same
      length. */
  lemma SameMembersSameSize(s: seq<Student>, t: seq<Student>)
    requires NoDuplicates(s) && NoDuplicates(t)
    requires forall x :: x in s ==> x in t
    requires forall x :: x in t ==> x in s
    ensures |s| == |t|
  {
    DistinctCardinality(s);
    DistinctCardinality(t);
    assert (set x | x in s) == (set x | x in t);
  }

  /** The order a `TreeSet<Student>` keeps: strictly ascending under
      `compareTo`. */
  predicate Sorted(s: seq<Student>)
    reads s
  {
    forall i, j :: 0 <= i < j < |s| ==> CompareTo(s[i].Snapshot(), s[j].Snapshot()) < 0
  }

  /** Some element compares as equal to `key`. */
  predicate HasKey(s: seq<Student>, key: StudentData)
    reads s
  {
    exists i :: 0 <= i < |s| && CompareTo(key, s[i].Snapshot()) == 0
  }

  /** `TreeSet.add`: walks past the smaller elements; an element comparing
      as equal stops the walk and leaves the set as it is. */
  function TreeAdd(s: seq<Student>, x: Student): (r: seq<Student>)
    reads s, x
    ensures forall y :: y in r ==> y in s || y == x
    ensures forall y :: y in s ==> y in r
    ensures r == s || (|r| == |s| + 1 && x in r)
  {
    if s == [] then [x]
    else
      var c := CompareTo(x.Snapshot(), s[0].Snapshot());
      if c > 0 then [s[0]] + TreeAdd(s[1..], x)
      else if c == 0 then s
      else [x] + s
  }

  /** `TreeSet.remove`: drops the elements comparing as equal to `key`. */
  function TreeRemove(s: seq<Student>, key: StudentData): (r: seq<Student>)
    reads s
    ensures forall y :: y in r ==> y in s && CompareTo(key, y.Snapshot()) != 0
    ensures forall y :: y in s && CompareTo(key, y.Snapshot()) != 0 ==> y in r
    ensures |r| <= |s|
  {
    if s == [] then []
    else if CompareTo(key, s[0].Snapshot()) == 0 then TreeRemove(s[1..], key)
    else [s[0]] + TreeRemove(s[1..], key)
  }

  /** `ArrayList.remove(Object)`: drops the first element that `equals` the
      argument, that is the first one with the argument's id. */
  function ListRemove(s: seq<Student>, id: int32): (r: seq<Student>)
    reads s
    ensures forall y :: y in r ==> y in s
    ensures forall y :: y in s && y.id != id ==> y in r
  {
    if s == [] then []
    else if s[0].id == id then s[1..]
    else [s[0]] + ListRemove(s[1..], id)
  }

  /** On ids, the list removal is `List.remove` of the id. */
  lemma {:induction false} ListRemoveIds(s: seq<Student>, id: int32)
    ensures Ids(ListRemove(s, id)) == RemoveFirst(Ids(s), id)
  {
    if s != [] {
      assert Ids(s) == [s[0].id] + Ids(s[1..]);
      if s[0].id != id {
        ListRemoveIds(s[1..], id);
        assert Ids([s[0]] + ListRemove(s[1..], id)) == [s[0].id] + Ids(ListRemove(s[1..], id));
      }
    }
  }

  /** The tail of a sorted set is sorted and above its head. */
  lemma SortedTail(s: seq<Student>)
    requires Sorted(s) && s != []
    ensures Sorted(s[1..])
    ensures forall y :: y in s[1..] ==> CompareTo(s[0].Snapshot(), y.Snapshot()) < 0
  {
    var t := s[1..];
    forall i, j | 0 <= i < j < |t| ensures CompareTo(t[i].Snapshot(), t[j].Snapshot()) < 0 {
      assert t[i] == s[i + 1] && t[j] == s[j + 1];
    }
    forall y | y in t ensures CompareTo(s[0].Snapshot(), y.Snapshot()) < 0 {
      var k :| 0 <= k < |t| && t[k] == y;
      assert t[k] == s[k + 1];
    }
  }

  /** An element below every element of a sorted set can go in front. */
  lemma SortedCons(h: Student, r: seq<Student>)
    requires Sorted(r)
    requires forall y :: y in r ==> CompareTo(h.Snapshot(), y.Snapshot()) < 0
    ensures Sorted([h] + r)
  {
    var hr := [h] + r;
    forall i, j | 0 <= i < j < |hr| ensures CompareTo(hr[i].Snapshot(), hr[j].Snapshot()) < 0 {
      assert hr[j] == r[j - 1] && hr[j] in r;
      if i > 0 {
        assert hr[i] == r[i - 1];
      }
    }
  }

  /** A key that does not match the head is found in the set exactly when
      it is found in the tail. */
  lemma HasKeyTail(s: seq<Student>, key: StudentData)
    requires s != [] && CompareTo(key, s[0].Snapshot()) != 0
    ensures HasKey(s, key) <==> HasKey(s[1..], key)
  {
    if HasKey(s, key) {
      var i :| 0 <= i < |s| && CompareTo(key, s[i].Snapshot()) == 0;
      assert s[1..][i - 1] == s[i];
    }
    if HasKey(s[1..], key) {
      var i :| 0 <= i < |s[1..]| && CompareTo(key, s[1..][i].Snapshot()) == 0;
      assert s[1..][i] == s[i + 1];
    }
  }

  /** Adding to a sorted set keeps it sorted; the element is added exactly
      when no element compares as equal to it. */
  lemma {:induction false} TreeAddSorted(s: seq<Student>, x: Student)
    requires Sorted(s)
    ensures Sorted(TreeAdd(s, x))
    ensures HasKey(s, x.Snapshot()) ==> TreeAdd(s, x) == s
    ensures !HasKey(s, x.Snapshot()) ==> |TreeAdd(s, x)| == |s| + 1 && x in TreeAdd(s, x)
  {
    if s != [] {
      var h, t, xd := s[0], s[1..], x.Snapshot();
      var c := CompareTo(xd, h.Snapshot());
      SortedTail(s);
      CompareToAntisymmetric(xd, h.Snapshot());
      if c > 0 {
        TreeAddSorted(t, x);
        SortedCons(h, TreeAdd(t, x));
        HasKeyTail(s, xd);
      } else if c == 0 {
        assert HasKey(s, xd);
      } else {
        forall y | y in s ensures CompareTo(xd, y.Snapshot()) < 0 {
          if y != h {
            CompareToTransitive(xd, h.Snapshot(), y.Snapshot());
          }
        }
        SortedCons(x, s);
      }
    }
  }

  /** Removing from a sorted set keeps it sorted. */
  lemma {:induction false} TreeRemoveSorted(s: seq<Student>, key: StudentData)
    requires Sorted(s)
    ensures Sorted(TreeRemove(s, key))
  {
    if s != [] {
      SortedTail(s);
      TreeRemoveSorted(s[1..], key);
      if CompareTo(key, s[0].Snapshot()) != 0 {
        SortedCons(s[0], TreeRemove(s[1..], key));
      }
    }
  }

  /** In a list with distinct ids, the list removal drops exactly the element
      with that id, shortens the list by one, and keeps the ids distinct. */
  lemma ListRemoveDistinct(s: seq<Student>, id: int32)
    requires DistinctIds(s) && id in Ids(s)
    ensures DistinctIds(ListRemove(s, id))
    ensures id !in Ids(ListRemove(s, id))
    ensures forall y :: y in ListRemove(s, id) ==> y.id != id
    ensures |ListRemove(s, id)| == |s| - 1
  {
    var r := ListRemove(s, id);
    ListRemoveIds(s, id);
    DistinctIdsNoDuplicates(s);
    RemoveFirstNoDuplicates(Ids(s), id);
    DistinctIdsNoDuplicates(r);
    forall y | y in r ensures y.id != id {
      var k :| 0 <= k < |r| && r[k] == y;
      assert Ids(r)[k] == y.id;
    }
  }

  /** Sorted sequences hold no object twice. */
  lemma SortedHasNoDuplicates(s: seq<Student>)
    requires Sorted(s)
    ensures NoDuplicates(s)
  {
    forall i, j | 0 <= i < j < |s| ensures s[i] != s[j] {
      CompareToZero(s[i].Snapshot(), s[i].Snapshot());
    }
  }

  // ---------------------------------------------------------------- validator

  /** The five messages of `validateStudentData`. */
  datatype StudentDataError =
    | IdNotPositive      // "Student ID must be positive!"
    | NameEmpty          // "Student name cannot be empty!"
    | AgeOutOfRange      // "Student age must be between 1 and 150!"
    | GradeEmpty         // "Student grade cannot be empty!"
    | AddressEmpty       // "Student address cannot be empty!"

  /** `validateStudentData`: the five checks in the source's order. */
  function ValidateStudentData(id: int32, name: string, age: int32, grade: string, address: string)
    : (r: Outcome<StudentDataError>)
    ensures r == Pass <==>
      id > 0 && !IsBlank(name, IsJavaSpace) && 1 <= age <= 150
      && !IsBlank(grade, IsJavaSpace) && !IsBlank(address, IsJavaSpace)
    ensures id <= 0 ==> r == Fail(IdNotPositive)
    ensures id > 0 && IsBlank(name, IsJavaSpace) ==> r == Fail(NameEmpty)
    ensures id > 0 && !IsBlank(name, IsJavaSpace) && !(1 <= age <= 150) ==> r == Fail(AgeOutOfRange)
    ensures id > 0 && !IsBlank(name, IsJavaSpace) && 1 <= age <= 150 && IsBlank(grade, IsJavaSpace)
      ==> r == Fail(GradeEmpty)
    ensures (id > 0 && !IsBlank(name, IsJavaSpace) && 1 <= age <= 150 && !IsBlank(grade, IsJavaSpace)
             && IsBlank(address, IsJavaSpace)) ==> r == Fail(AddressEmpty)
  {
    if id <= 0 then Fail(IdNotPositive)
    else if JavaTrim(name) == [] then Fail(NameEmpty)
    else if age <= 0 || age > 150 then Fail(AgeOutOfRange)
    else if JavaTrim(grade) == [] then Fail(GradeEmpty)
    else if JavaTrim(address) == [] then Fail(AddressEmpty)
    else Pass
  }

  // ------------------------------------------------------------------ manager

  /** `addStudent` throws when the id is taken. */
  datatype StudentManagerError = DuplicateId

  /** The list has one student per id and the map files exactly those
      students under their ids. */
  ghost predicate Indexed(students: seq<Student>, studentMap: map<int32, Student>)
    reads students
  {
    && DistinctIds(students)
    && (forall k :: k in studentMap ==> studentMap[k] in students && studentMap[k].id == k)
    && (forall i :: 0 <= i < |students| ==>
          students[i].id in studentMap && studentMap[students[i].id] == students[i])
  }

  /** The three structures agree: the list and the map as above, and the
      tree set holds exactly the listed objects, in `compareTo` order. */
  ghost predicate Agree(students: seq<Student>, studentMap: map<int32, Student>, sorted: seq<Student>)
    reads students, sorted
  {
    && Indexed(students, studentMap)
    && Sorted(sorted)
    && (forall x :: x in sorted ==> x in students)
    && (forall x :: x in students ==> x in sorted)
  }

  /** The map has one entry per listed student. */
  lemma IndexedSize(students: seq<Student>, studentMap: map<int32, Student>)
    requires Indexed(students, studentMap)
    ensures |studentMap| == |students|
  {
    var ids := Ids(students);
    DistinctIdsNoDuplicates(students);
    DistinctCardinality(ids);
    assert studentMap.Keys == set x | x in ids;
  }

  /** Two different listed students have different ids. */
  lemma DistinctStudentsDistinctIds(students: seq<Student>, studentMap: map<int32, Student>, x: Student, y: Student)
    requires Indexed(students, studentMap) && x in students && y in students && x != y
    ensures x.id != y.id
  {
    var i :| 0 <= i < |students| && students[i] == x;
    var j :| 0 <= j < |students| && students[j] == y;
  }

  /** No listed student compares as equal to a student with a new id. */
  lemma NewIdHasNoKey(students: seq<Student>, studentMap: map<int32, Student>, sorted: seq<Student>, student: Student)
    requires Agree(students, studentMap, sorted) && student.id !in studentMap
    ensures !HasKey(sorted, student.Snapshot())
  {
    forall i | 0 <= i < |sorted| ensures CompareTo(student.Snapshot(), sorted[i].Snapshot()) != 0 {
      var o := sorted[i];
      CompareToZero(student.Snapshot(), o.Snapshot());
      assert o in students;
      var j :| 0 <= j < |students| && students[j] == o;
    }
  }

  /** Appending a student with a new id keeps the list and the map indexed. */
  lemma IndexedAfterAdd(students: seq<Student>, studentMap: map<int32, Student>, student: Student)
    requires Indexed(students, studentMap) && student.id !in studentMap
    ensures Indexed(students + [student], studentMap[student.id := student])
  {
    var students' := students + [student];
    assert forall i :: 0 <= i < |students| ==> students'[i] == students[i];
    assert forall i :: 0 <= i < |students| ==> students[i].id != student.id;
  }

  /** Adding a student with a new id keeps the three structures in
      agreement, and the student ends up in the tree set. */
  lemma AgreeAfterAdd(students: seq<Student>, studentMap: map<int32, Student>, sorted: seq<Student>, student: Student)
    requires Agree(students, studentMap, sorted) && student.id !in studentMap
    ensures Agree(students + [student], studentMap[student.id := student], TreeAdd(sorted, student))
    ensures student in TreeAdd(sorted, student)
  {
    NewIdHasNoKey(students, studentMap, sorted, student);
    TreeAddSorted(sorted, student);
    IndexedAfterAdd(students, studentMap, student);
  }

  /** What removing the student filed under `id` from the tree set does:
      exactly that student leaves it and the order is kept. */
  lemma TreeRemoveFiled(students: seq<Student>, studentMap: map<int32, Student>, sorted: seq<Student>, id: int32)
    requires Agree(students, studentMap, sorted) && id in studentMap
    ensures studentMap[id] in students && studentMap[id].id == id
    ensures Sorted(TreeRemove(sorted, studentMap[id].Snapshot()))
    ensures forall x :: x in TreeRemove(sorted, studentMap[id].Snapshot()) ==> x in sorted && x != studentMap[id]
    ensures forall x :: x in sorted && x != studentMap[id] ==> x in TreeRemove(sorted, studentMap[id].Snapshot())
  {
    var student := studentMap[id];
    TreeRemoveSorted(sorted, student.Snapshot());
    CompareToZero(student.Snapshot(), student.Snapshot());
    forall y | y in sorted && y != student ensures CompareTo(student.Snapshot(), y.Snapshot()) != 0 {
      CompareToZero(student.Snapshot(), y.Snapshot());
      DistinctStudentsDistinctIds(students, studentMap, student, y);
    }
  }

  /** Every id still filed after the removal is still listed. */
  lemma RemovedKeysListed(students: seq<Student>, studentMap: map<int32, Student>, id: int32)
    requires Indexed(students, studentMap)
    ensures forall k :: k in studentMap - {id} ==>
      (studentMap - {id})[k] in ListRemove(students, id) && (studentMap - {id})[k].id == k
  {
  }

  /** Every student still listed after the removal is still filed. */
  lemma RemovedListedFiled(students: seq<Student>, studentMap: map<int32, Student>, id: int32)
    requires Indexed(students, studentMap)
    requires forall y :: y in ListRemove(students, id) ==> y.id != id
    ensures forall i :: 0 <= i < |ListRemove(students, id)| ==>
      ListRemove(students, id)[i].id in studentMap - {id}
      && (studentMap - {id})[ListRemove(students, id)[i].id] == ListRemove(students, id)[i]
  {
    var students' := ListRemove(students, id);
    forall i | 0 <= i < |students'|
      ensures students'[i].id in studentMap - {id} && (studentMap - {id})[students'[i].id] == students'[i]
    {
      assert students'[i] in students;
      var j :| 0 <= j < |students| && students[j] == students'[i];
    }
  }

  /** Removing the student filed under `id` from the list and the map keeps
      them indexed, and on ids the list loses exactly the first `id`. */
  lemma IndexedAfterRemove(students: seq<Student>, studentMap: map<int32, Student>, id: int32)
    requires Indexed(students, studentMap) && id in studentMap
    ensures Indexed(ListRemove(students, id), studentMap - {id})
    ensures |ListRemove(students, id)| == |students| - 1
    ensures id !in Ids(ListRemove(students, id))
    ensures Ids(ListRemove(students, id)) == RemoveFirst(Ids(students), id)
  {
    ListRemoveDistinct(students, id);
    ListRemoveIds(students, id);
    RemovedKeysListed(students, studentMap, id);
    RemovedListedFiled(students, studentMap, id);
  }

  /** The three structures after removing the student filed under `id` from
      each: they still agree. What each structure lost is stated by
      `IndexedAfterRemove` and `TreeRemoveFiled`. */
  function AfterRemove(students: seq<Student>, studentMap: map<int32, Student>, sorted: seq<Student>, id: int32):
    (r: (seq<Student>, map<int32, Student>, seq<Student>))
    requires Agree(students, studentMap, sorted) && id in studentMap
    reads students, sorted
    ensures Agree(r.0, r.1, r.2)
  {
    var student := studentMap[id];
    TreeRemoveFiled(students, studentMap, sorted, id);
    IndexedAfterRemove(students, studentMap, id);
    var students', sorted' := ListRemove(students, id), TreeRemove(sorted, student.Snapshot());
    forall x | x in sorted' ensures x in students' {
      DistinctStudentsDistinctIds(students, studentMap, x, student);
    }
    forall x | x in students' ensures x in sorted' {
    }
    (students', studentMap - {id}, sorted')
  }

  /** The fields of a sequence of students, in order. */
  function Snapshots(s: seq<Student>): (r: seq<StudentData>)
    reads s
    ensures |r| == |s|
    ensures forall i :: 0 <= i < |s| ==> r[i] == s[i].Snapshot()
  {
    if s == [] then [] else [s[0].Snapshot()] + Snapshots(s[1..])
  }

  /** `Sorted`, said of the students' fields alone. */
  predicate SortedKeys(keys: seq<StudentData>) {
    forall i, j :: 0 <= i < j < |keys| ==> CompareTo(keys[i], keys[j]) < 0
  }

  /** Students whose fields are `keys` are sorted when `keys` is. */
  lemma SortedByKeys(s: seq<Student>, keys: seq<StudentData>)
    requires |keys| == |s| && SortedKeys(keys)
    requires forall i :: 0 <= i < |s| ==> s[i].Snapshot() == keys[i]
    ensures Sorted(s)
  {
  }

  /** `Indexed`, with the students' ids given as `ids`. */
  predicate IndexedByIds(ids: seq<int32>, students: seq<Student>, studentMap: map<int32, Student>) {
    && |ids| == |students|
    && (forall i, j :: 0 <= i < j < |ids| ==> ids[i] != ids[j])
    && (forall k :: k in studentMap ==> k in ids)
    && (forall i :: 0 <= i < |ids| ==> ids[i] in studentMap && studentMap[ids[i]] == students[i])
  }

  lemma IndexedHasIds(students: seq<Student>, studentMap: map<int32, Student>)
    requires Indexed(students, studentMap)
    ensures IndexedByIds(Ids(students), students, studentMap)
  {
    var ids := Ids(students);
    forall k | k in studentMap ensures k in ids {
      var i :| 0 <= i < |students| && students[i] == studentMap[k];
      assert ids[i] == k;
    }
  }

  /** Students who kept their ids are still indexed. */
  lemma IndexedByKeptIds(students: seq<Student>, studentMap: map<int32, Student>, ids: seq<int32>)
    requires IndexedByIds(ids, students, studentMap)
    requires forall i :: 0 <= i < |students| ==> students[i].id == ids[i]
    ensures Indexed(students, studentMap)
  {
    forall k | k in studentMap ensures studentMap[k] in students && studentMap[k].id == k {
      var i :| 0 <= i < |ids| && ids[i] == k;
    }
  }

  /** The tree set after putting an updated student back into a tree set
      that holds every other listed student: the three structures agree
      again, whatever the student's new name. */
  function Reinserted(students: seq<Student>, studentMap: map<int32, Student>, others: seq<Student>, student: Student):
    (r: seq<Student>)
    requires Indexed(students, studentMap) && Sorted(others)
    requires student in students && student !in others
    requires forall x :: x in others ==> x in students
    requires forall x :: x in students && x != student ==> x in others
    reads students, others
    ensures Agree(students, studentMap, r)
  {
    assert forall i :: 0 <= i < |others| ==> CompareTo(student.Snapshot(), others[i].Snapshot()) != 0 by {
      forall i | 0 <= i < |others| ensures CompareTo(student.Snapshot(), others[i].Snapshot()) != 0 {
        var o := others[i];
        CompareToZero(student.Snapshot(), o.Snapshot());
        DistinctStudentsDistinctIds(students, studentMap, student, o);
      }
    }
    TreeAddSorted(others, student);
    TreeAdd(others, student)
  }

}
