/** `StudentManager` of week3/StudentManager.java as an object whose three
    structures its methods update in place, proved to keep them in agreement
    (`StudentRegistry.Agree`). */
module StudentManagement {
  import opened Wrappers
  import opened Seqs
  import opened Students
  import opened StudentRegistry

  class StudentManager {
    var students: seq<Student>
    var studentMap: map<int32, Student>
    var sortedStudents: seq<Student>

    ghost predicate Valid()
      reads this, students, sortedStudents
    {
      Agree(students, studentMap, sortedStudents)
    }

    constructor ()
      ensures Valid()
      ensures students == [] && studentMap == map[] && sortedStudents == []
    {
      students := [];
      studentMap := map[];
      sortedStudents := [];
    }

    /** `getStudentCount`: the size of the list. */
    function StudentCount(): nat
      reads this
    {
      |students|
    }

    /** `searchStudent`: the student filed under `id`, or none. */
    function SearchStudent(id: int32): (r: Option<Student>)
      reads this
      ensures r.Some? <==> id in studentMap
      ensures r.Some? ==> r.value == studentMap[id]
    {
      if id in studentMap then Some(studentMap[id]) else None
    }

    /** `addStudent`. */
    method AddStudent(student: Student) returns (r: Outcome<StudentManagerError>)
      requires Valid()
      modifies this
      ensures Valid()
      ensures old(student.id in studentMap) ==> r == Fail(DuplicateId) && unchanged(this)
      ensures old(student.id !in studentMap) ==>
        && r == Pass
        && students == old(students) + [student]
        && studentMap == old(studentMap)[student.id := student]
        && sortedStudents == TreeAdd(old(sortedStudents), student)
        && student in sortedStudents
        && StudentCount() == old(StudentCount()) + 1
    {
      if student.id in studentMap {
        return Fail(DuplicateId);
      }
      AgreeAfterAdd(students, studentMap, sortedStudents, student);
      students, studentMap, sortedStudents :=
        students + [student], studentMap[student.id := student], TreeAdd(sortedStudents, student);
      r := Pass;
    }

    /** `removeStudent`: the student filed under `id` leaves the map, the
        list (`remove`, by `equals`) and the tree set. */
    method RemoveStudent(id: int32) returns (removed: bool)
      requires Valid()
      modifies this
      ensures removed <==> old(id in studentMap)
      ensures !removed ==> unchanged(this)
      ensures removed ==> (students, studentMap, sortedStudents) == old(AfterRemove(students, studentMap, sortedStudents, id))
      ensures Valid()
    {
      if id !in studentMap {
        return false;
      }
      var after := AfterRemove(students, studentMap, sortedStudents, id);
      students, studentMap, sortedStudents := after.0, after.1, after.2;
      removed := true;
    }

    /** `updateStudent`: the student leaves the tree set, its four fields are
        overwritten, and it is put back at its new position: afterwards the
        tree set holds the same objects as before, in the `compareTo` order
        of their new values (`Valid()`). */
    method UpdateStudent(id: int32, name: string, age: int32, grade: string, address: string)
      returns (updated: bool)
      requires Valid()
      modifies this, if id in studentMap then {studentMap[id]} else {}
      ensures Valid()
      ensures updated <==> old(id in studentMap)
      ensures !updated ==> unchanged(this)
      ensures updated ==>
        && id in studentMap
        && studentMap[id].Snapshot() == StudentData(id, name, age, grade, address)
        && students == old(students) && studentMap == old(studentMap)
        && studentMap[id] in sortedStudents
        && (forall x :: x in sortedStudents ==> x in old(sortedStudents))
        && (forall x :: x in old(sortedStudents) ==> x in sortedStudents)
    {
      if id !in studentMap {
        return false;
      }
      var student := studentMap[id];
      TreeRemoveFiled(students, studentMap, sortedStudents, id);
      var others := TreeRemove(sortedStudents, student.Snapshot());
      Overwrite(student, name, age, grade, address, students, studentMap, others);
      sortedStudents := Reinserted(students, studentMap, others, student);
      updated := true;
    }
  }


  /** The four setter calls of `updateStudent`. They change only the
      student's own fields and leave its id alone, so the list and the map
      stay indexed and a tree set without the student stays sorted. */
  method Overwrite(student: Student, name: string, age: int32, grade: string, address: string,
                   ghost students: seq<Student>, ghost studentMap: map<int32, Student>, ghost others: seq<Student>)
    requires Indexed(students, studentMap) && Sorted(others) && student !in others
    modifies student
    ensures student.Snapshot() == old(student.Snapshot()).(name := name, age := age, grade := grade, address := address)
    ensures Indexed(students, studentMap) && Sorted(others)
  {
    ghost var ids, keys := Ids(students), Snapshots(others);
    IndexedHasIds(students, studentMap);
    student.SetName(name);
    student.SetAge(age);
    student.SetGrade(grade);
    student.SetAddress(address);
    forall i | 0 <= i < |students| ensures students[i].id == ids[i] {
    }
    forall i | 0 <= i < |others| ensures others[i].Snapshot() == keys[i] {
    }
    IndexedByKeptIds(students, studentMap, ids);
    SortedByKeys(others, keys);
  }

  /** `searchStudent` finds exactly the listed students: it answers for an
      id exactly when a listed student has it, and the answer is that
      student. */
  lemma SearchFindsListed(m: StudentManager, id: int32)
    requires m.Valid()
    ensures m.SearchStudent(id).Some? <==> id in Ids(m.students)
    ensures m.SearchStudent(id).Some? ==>
      m.SearchStudent(id).value in m.students && m.SearchStudent(id).value.id == id
  {
    if id in Ids(m.students) {
      var i :| 0 <= i < |m.students| && Ids(m.students)[i] == id;
    }
  }

  /** The three structures have the same size: `getStudentCount`, which
      counts the list, also counts the map and the tree set. */
  lemma CountsAgree(m: StudentManager)
    requires m.Valid()
    ensures m.StudentCount() == |m.studentMap| == |m.sortedStudents|
  {
    IndexedSize(m.students, m.studentMap);
    DistinctIdsDistinctStudents(m.students);
    SortedHasNoDuplicates(m.sortedStudents);
    SameMembersSameSize(m.students, m.sortedStudents);
  }

}
