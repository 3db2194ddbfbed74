/** A student and the ordered list of courses they hold (class `Student` in
    RegistrationSystem.java). */
module Students {

  /** A reference to a course object: its address on the course heap kept by
      the registry. The source's list holds object references and removes by
      identity (`Course` does not override `equals`), so the list is modelled
      on references rather than on course codes. */
  type CourseRef = nat

  datatype Student = Student(id: string, name: string, registered: seq<CourseRef>)

  /** The constructor: an empty course list. */
  function NewStudent(id: string, name: string): (s: Student)
    ensures s.id == id && s.name == name
    ensures |s.registered| == 0
  {
    Student(id, name, [])
  }

  /** Position of the first occurrence of `x` in `xs`. */
  function FirstIndex<T(==)>(xs: seq<T>, x: T): (i: nat)
    requires x in xs
    ensures i < |xs| && xs[i] == x
    ensures x !in xs[..i]
  {
    if xs[0] == x then 0
    else
      var j := FirstIndex(xs[1..], x);
      assert xs[..j + 1] == [xs[0]] + xs[1..][..j];
      j + 1
  }

  /** `java.util.List.remove(Object)`: delete the first occurrence, if any. */
  function RemoveFirst<T(==)>(xs: seq<T>, x: T): (r: seq<T>)
    ensures x !in xs ==> r == xs
    ensures |r| == if x in xs then |xs| - 1 else |xs|
  {
    if xs == [] then []
    else if xs[0] == x then xs[1..]
    else
      var rest := RemoveFirst(xs[1..], x);
      assert xs == [xs[0]] + xs[1..];
      [xs[0]] + rest
  }

  /** Exactly one copy of `x` goes, if there is one, and every other element
      keeps its count. */
  lemma {:induction false} RemoveFirstTakesOneCopy<T>(xs: seq<T>, x: T)
    ensures multiset(RemoveFirst(xs, x)) == multiset(xs) - multiset{x}
  {
    if xs != [] {
      assert xs == [xs[0]] + xs[1..];
      if xs[0] != x {
        RemoveFirstTakesOneCopy(xs[1..], x);
      }
    }
  }

  /** Sequence algebra kept in lemmas of its own, where it is cheap to prove. */
  lemma ConcatAssociates<T>(a: seq<T>, b: seq<T>, c: seq<T>)
    ensures a + (b + c) == a + b + c
  {
  }

  lemma DropHead<T>(a: seq<T>, b: seq<T>)
    requires a != []
    ensures (a + b)[0] == a[0] && (a + b)[1..] == a[1..] + b
  {
  }

  /** Removing from a list split at the first copy of `x` (none in the
      prefix) glues the prefix to the suffix. */
  lemma {:induction false} RemoveFirstOfSplit<T>(p: seq<T>, x: T, q: seq<T>)
    requires x !in p
    ensures RemoveFirst(p + [x] + q, x) == p + q
  {
    var xs := p + [x] + q;
    ConcatAssociates(p, [x], q);
    if p == [] {
      assert xs == [x] + q;
      DropHead([x], q);
    } else {
      DropHead(p, [x] + q);
      ConcatAssociates(p[1..], [x], q);
      assert RemoveFirst(xs, x) == [p[0]] + RemoveFirst(xs[1..], x);
      RemoveFirstOfSplit(p[1..], x, q);
      assert p == [p[0]] + p[1..];
      ConcatAssociates([p[0]], p[1..], q);
    }
  }

  /** The copy `RemoveFirst` deletes is the one at the first index: the list
      is cut around that position and nothing else moves. */
  lemma RemoveFirstCutsAtFirstIndex<T>(xs: seq<T>, x: T)
    requires x in xs
    ensures RemoveFirst(xs, x) == xs[..FirstIndex(xs, x)] + xs[FirstIndex(xs, x) + 1..]
  {
  }

  /** With a copy of `x` already present, appending another copy does not
      change which one is removed. */
  lemma RemoveFirstBeforeAppended<T>(xs: seq<T>, x: T)
    requires x in xs
    ensures RemoveFirst(xs + [x], x) == RemoveFirst(xs, x) + [x]
  {
    var i := FirstIndex(xs, x);
    var before, after := xs[..i], xs[i + 1..];
    assert xs == before + [x] + after;
    assert xs + [x] == before + [x] + (after + [x]);
    RemoveFirstOfSplit(before, x, after);
    RemoveFirstOfSplit(before, x, after + [x]);
  }

  /** `registerCourse`: append unconditionally. The reference lands at the
      end, everything before it stays put, and a course already held is held
      once more. */
  function RegisterCourse(s: Student, c: CourseRef): (r: Student)
    ensures r.id == s.id && r.name == s.name
    ensures |r.registered| == |s.registered| + 1
    ensures r.registered[..|s.registered|] == s.registered
    ensures r.registered[|s.registered|] == c
    ensures multiset(r.registered) == multiset(s.registered) + multiset{c}
  {
    var r := s.(registered := s.registered + [c]);
    assert r.registered[..|s.registered|] == s.registered;
    r
  }

  /** `dropCourse`: remove the first occurrence of the reference; a no-op when
      the course is not held. Exactly one copy goes when it is held. */
  function DropCourse(s: Student, c: CourseRef): (r: Student)
    ensures r.id == s.id && r.name == s.name
    ensures c !in s.registered ==> r == s
    ensures c in s.registered ==> |r.registered| == |s.registered| - 1
  {
    s.(registered := RemoveFirst(s.registered, c))
  }

  /** `dropCourse` takes away one copy of the course, if held, and leaves the
      count of every other course alone. */
  lemma DropCourseTakesOneCopy(s: Student, c: CourseRef)
    ensures multiset(DropCourse(s, c).registered) == multiset(s.registered) - multiset{c}
  {
    RemoveFirstTakesOneCopy(s.registered, c);
  }

  /** The copy `dropCourse` deletes is the first one: the list is cut around
      the first position holding the course and nothing else moves. */
  lemma DropCourseCutsAtFirstCopy(s: Student, c: CourseRef)
    requires c in s.registered
    ensures var i := FirstIndex(s.registered, c);
      DropCourse(s, c).registered == s.registered[..i] + s.registered[i + 1..]
  {
    RemoveFirstCutsAtFirstIndex(s.registered, c);
  }

  /** Registration keeps duplicates: holding a course and registering again
      leaves two copies in the list. */
  lemma RegisterKeepsDuplicates(s: Student, c: CourseRef)
    requires c in s.registered
    ensures multiset(RegisterCourse(s, c).registered)[c] >= 2
  {
  }

  /** Dropping a course right after registering it restores the student when
      the course was not held before. */
  lemma RegisterThenDropRestores(s: Student, c: CourseRef)
    requires c !in s.registered
    ensures DropCourse(RegisterCourse(s, c), c) == s
  {
    var up := RegisterCourse(s, c);
    assert up.registered == s.registered + [c] + [];
    RemoveFirstOfSplit(s.registered, c, []);
  }

  /** When the course was already held, the drop removes the EARLIER copy:
      the student ends with the same courses, but the re-registered one moves
      to the end of the list. */
  lemma RegisterThenDropOfHeldCourse(s: Student, c: CourseRef)
    requires c in s.registered
    ensures var i := FirstIndex(s.registered, c);
      DropCourse(RegisterCourse(s, c), c).registered
        == s.registered[..i] + s.registered[i + 1..] + [c]
  {
    var up := RegisterCourse(s, c);
    assert up.registered == s.registered + [c];
    assert DropCourse(up, c).registered == RemoveFirst(s.registered + [c], c);
    RemoveFirstBeforeAppended(s.registered, c);
    RemoveFirstCutsAtFirstIndex(s.registered, c);
  }

  /** Whether or not the course was held, register-then-drop leaves the
      student holding the same courses the same number of times. */
  lemma RegisterThenDropKeepsCourses(s: Student, c: CourseRef)
    ensures multiset(DropCourse(RegisterCourse(s, c), c).registered) == multiset(s.registered)
  {
    DropCourseTakesOneCopy(RegisterCourse(s, c), c);
  }
}
