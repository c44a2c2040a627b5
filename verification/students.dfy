/** The `Student` entity of week3/Student.java: five fields set by the
    constructor and the setters, equality and hash code by id, and the
    natural order by name ignoring case, then by id. */
module Students {
  import opened Text

  /** Java's `int`. */
  newtype int32 = x: int | -0x8000_0000 <= x < 0x8000_0000

  /** Two's-complement wrap-around of a mathematical integer into `int32`. */
  function Wrap32(x: int): (r: int32)
    ensures -0x8000_0000 <= x < 0x8000_0000 ==> r as int == x
    ensures (r as int - x) % 0x1_0000_0000 == 0
  {
    var m := x % 0x1_0000_0000;
    (if m >= 0x8000_0000 then m - 0x1_0000_0000 else m) as int32
  }

  /** The values of a student's fields at one moment. */
  datatype StudentData = StudentData(id: int32, name: string, age: int32, grade: string, address: string)

  class Student {
    var id: int32
    var name: string
    var age: int32
    var grade: string
    var address: string

    function Snapshot(): StudentData
      reads this
    {
      StudentData(id, name, age, grade, address)
    }

    /** The parameterised constructor stores the five fields as given. */
    constructor (id: int32, name: string, age: int32, grade: string, address: string)
      ensures Snapshot() == StudentData(id, name, age, grade, address)
    {
      this.id := id;
      this.name := name;
      this.age := age;
      this.grade := grade;
      this.address := address;
    }

    method SetId(id: int32)
      modifies this
      ensures Snapshot() == old(Snapshot()).(id := id)
    {
      this.id := id;
    }

    method SetName(name: string)
      modifies this
      ensures Snapshot() == old(Snapshot()).(name := name)
    {
      this.name := name;
    }

    method SetAge(age: int32)
      modifies this
      ensures Snapshot() == old(Snapshot()).(age := age)
    {
      this.age := age;
    }

    method SetGrade(grade: string)
      modifies this
      ensures Snapshot() == old(Snapshot()).(grade := grade)
    {
      this.grade := grade;
    }

    method SetAddress(address: string)
      modifies this
      ensures Snapshot() == old(Snapshot()).(address := address)
    {
      this.address := address;
    }
  }

  // ---------------------------------------------------- equals, hashCode

  /** `equals`: same id. */
  predicate Equals(a: StudentData, b: StudentData) {
    a.id == b.id
  }

  /** `Objects.hash(id)`: `31 * 1 + id` in 32-bit arithmetic. */
  function HashCode(s: StudentData): int32 {
    Wrap32(31 + s.id as int)
  }

  /** The hash code depends on the id alone, and, since adding 31 modulo 2^32
      is a bijection, two students have the same hash code exactly when they
      are equal. */
  lemma HashCodeAgreesWithEquals(a: StudentData, b: StudentData)
    ensures Equals(a, b) <==> HashCode(a) == HashCode(b)
  {
    if HashCode(a) == HashCode(b) {
      var d := (a.id as int) - (b.id as int);
      assert (HashCode(a) as int - (31 + a.id as int)) % 0x1_0000_0000 == 0;
      assert (HashCode(b) as int - (31 + b.id as int)) % 0x1_0000_0000 == 0;
      assert d % 0x1_0000_0000 == 0 by {
        ModDifference(HashCode(a) as int - (31 + a.id as int), HashCode(b) as int - (31 + b.id as int));
      }
      assert -0x1_0000_0000 < d < 0x1_0000_0000;
    }
  }

  lemma ModDifference(x: int, y: int)
    requires x % 0x1_0000_0000 == 0 && y % 0x1_0000_0000 == 0
    ensures (y - x) % 0x1_0000_0000 == 0
  {
    var n := 0x1_0000_0000;
    assert x == (x / n) * n;
    assert y == (y / n) * n;
    assert y - x == (y / n - x / n) * n;
  }

  // ----------------------------------------------------------- compareTo

  /** `compareToIgnoreCase`, with case folding restricted to ASCII: the
      difference of the first characters that differ after folding, or else
      the difference of the lengths. */
  function CompareIgnoreCase(a: string, b: string): int {
    if a == [] || b == [] then |a| - |b|
    else if ToLowerChar(a[0]) != ToLowerChar(b[0]) then ToLowerChar(a[0]) as int - ToLowerChar(b[0]) as int
    else CompareIgnoreCase(a[1..], b[1..])
  }

  /** `Integer.compare`. */
  function CompareInt(x: int32, y: int32): (r: int)
    ensures r == -1 || r == 0 || r == 1
    ensures r < 0 <==> x < y
    ensures r == 0 <==> x == y
  {
    if x < y then -1 else if x == y then 0 else 1
  }

  /** `compareTo`: by name ignoring case, then by id. */
  function CompareTo(a: StudentData, b: StudentData): int {
    var byName := CompareIgnoreCase(a.name, b.name);
    if byName != 0 then byName else CompareInt(a.id, b.id)
  }

  lemma {:induction false} CompareIgnoreCaseAntisymmetric(a: string, b: string)
    ensures CompareIgnoreCase(a, b) == -CompareIgnoreCase(b, a)
  {
    if a != [] && b != [] && ToLowerChar(a[0]) == ToLowerChar(b[0]) {
      CompareIgnoreCaseAntisymmetric(a[1..], b[1..]);
    }
  }

  lemma {:induction false} CompareIgnoreCaseZero(a: string, b: string)
    ensures CompareIgnoreCase(a, b) == 0 <==> ToLower(a) == ToLower(b)
  {
    if a != [] && b != [] {
      assert ToLower(a) == [ToLowerChar(a[0])] + ToLower(a[1..]);
      assert ToLower(b) == [ToLowerChar(b[0])] + ToLower(b[1..]);
      if ToLowerChar(a[0]) == ToLowerChar(b[0]) {
        CompareIgnoreCaseZero(a[1..], b[1..]);
      } else {
        assert ToLower(a)[0] != ToLower(b)[0];
      }
    } else if a != [] || b != [] {
      assert |ToLower(a)| != |ToLower(b)|;
    }
  }

  lemma {:induction false} CompareIgnoreCaseTransitive(a: string, b: string, c: string)
    requires CompareIgnoreCase(a, b) < 0 && CompareIgnoreCase(b, c) < 0
    ensures CompareIgnoreCase(a, c) < 0
  {
    if a != [] && b != [] && c != []
       && ToLowerChar(a[0]) == ToLowerChar(b[0]) && ToLowerChar(b[0]) == ToLowerChar(c[0]) {
      CompareIgnoreCaseTransitive(a[1..], b[1..], c[1..]);
    }
  }

  /** Names equal ignoring case compare alike against any third name. */
  lemma {:induction false} CompareIgnoreCaseCongruent(a: string, b: string, c: string)
    requires CompareIgnoreCase(b, c) == 0
    ensures CompareIgnoreCase(a, b) == CompareIgnoreCase(a, c)
  {
    CompareIgnoreCaseZero(b, c);
    if a != [] && b != [] && c != [] {
      CompareIgnoreCaseCongruent(a[1..], b[1..], c[1..]);
    }
  }

  /** The order is antisymmetric, exactly: swapping the operands negates the
      result, so in particular the signs are opposite. */
  lemma CompareToAntisymmetric(a: StudentData, b: StudentData)
    ensures CompareTo(a, b) == -CompareTo(b, a)
  {
    CompareIgnoreCaseAntisymmetric(a.name, b.name);
  }

  /** Two students compare as equal exactly when their names agree ignoring
      case and their ids agree. */
  lemma CompareToZero(a: StudentData, b: StudentData)
    ensures CompareTo(a, b) == 0 <==> ToLower(a.name) == ToLower(b.name) && a.id == b.id
  {
    CompareIgnoreCaseZero(a.name, b.name);
  }

  /** Names decide first: a student whose folded name comes first comes first,
      whatever the ids. */
  lemma CompareToByNameFirst(a: StudentData, b: StudentData)
    requires CompareIgnoreCase(a.name, b.name) < 0
    ensures CompareTo(a, b) < 0
  {
  }

  /** The order is transitive. */
  lemma CompareToTransitive(a: StudentData, b: StudentData, c: StudentData)
    requires CompareTo(a, b) < 0 && CompareTo(b, c) < 0
    ensures CompareTo(a, c) < 0
  {
    var ab, bc := CompareIgnoreCase(a.name, b.name), CompareIgnoreCase(b.name, c.name);
    if ab < 0 && bc < 0 {
      CompareIgnoreCaseTransitive(a.name, b.name, c.name);
    } else if bc == 0 {
      CompareIgnoreCaseCongruent(a.name, b.name, c.name);
    } else {
      CompareIgnoreCaseCongruent(c.name, a.name, b.name);
      CompareIgnoreCaseAntisymmetric(a.name, c.name);
      CompareIgnoreCaseAntisymmetric(b.name, c.name);
    }
  }

  /** Students the order treats as the same share their id, so they are
      `equals` too. */
  lemma CompareToZeroImpliesEquals(a: StudentData, b: StudentData)
    requires CompareTo(a, b) == 0
    ensures Equals(a, b)
  {
    CompareToZero(a, b);
  }
}
