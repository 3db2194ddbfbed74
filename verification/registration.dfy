/** `RegistrationSystem`: the two databases together with the course objects
    they and the students refer to. Java keeps those objects on its heap; here
    the heap is explicit, a course reference being a position in it. A new
    course object is appended and never removed, which matches the source,
    where nothing is ever deleted. */
module Registration {
  import opened JavaTypes
  import opened Store
  import Courses
  import Students
  import opened Databases

  datatype Registry = Registry(heap: seq<Courses.Course>, courses: CourseDatabase, students: StudentDatabase)

  /** Every reference a student holds points at a course object. */
  ghost predicate HoldsHeapRefs(s: Students.Student, heapSize: nat) {
    forall j :: 0 <= j < |s.registered| ==> s.registered[j] < heapSize
  }

  /** Every reference the course database holds points at a course object:
      what a Java reference guarantees for free. */
  ghost predicate CourseRefsInHeap(reg: Registry) {
    forall code :: code in reg.courses.entries ==> reg.courses.entries[code] < |reg.heap|
  }

  /** The registry's well-formedness: references point into the heap, each
      entity is filed under its own key, and every course object keeps its
      enrollment bound. */
  ghost predicate Valid(reg: Registry) {
    && CourseRefsInHeap(reg)
    && (forall code :: code in reg.courses.entries ==>
          reg.heap[reg.courses.entries[code]].code == code)
    && (forall id :: id in reg.students.entries ==>
          reg.students.entries[id].id == id
          && HoldsHeapRefs(reg.students.entries[id], |reg.heap|))
    && (forall i :: 0 <= i < |reg.heap| ==> Courses.EnrollmentInvariant(reg.heap[i]))
  }

  /** Between `before` and `after` only course object `ref` changed, and only
      its counter, by `delta`; the course database is untouched. */
  ghost predicate OnlyCourseMoved(before: Registry, after: Registry, ref: Students.CourseRef, delta: int)
    requires ref < |before.heap|
  {
    && |after.heap| == |before.heap|
    && after.courses == before.courses
    && Courses.SameOffering(before.heap[ref], after.heap[ref])
    && after.heap[ref].enrolled as int == before.heap[ref].enrolled as int + delta
    && (forall i :: 0 <= i < |before.heap| && i != ref ==> after.heap[i] == before.heap[i])
  }

  /** Between `before` and `after` only the student filed under `id` changed. */
  ghost predicate OnlyStudentChanged(before: Registry, after: Registry, id: string) {
    && after.students.entries.Keys == before.students.entries.Keys
    && (forall other :: other in before.students.entries && other != id ==>
          after.students.entries[other] == before.students.entries[other])
  }

  /** Everything a student holds after a drop was held before, so a list
      that pointed only into the heap still does. */
  lemma DropKeepsHeapRefs(s: Students.Student, c: Students.CourseRef, heapSize: nat)
    ensures forall x :: x in Students.DropCourse(s, c).registered ==> x in s.registered
    ensures HoldsHeapRefs(s, heapSize) ==> HoldsHeapRefs(Students.DropCourse(s, c), heapSize)
  {
    var r := Students.DropCourse(s, c).registered;
    Students.DropCourseTakesOneCopy(s, c);
    forall x | x in r
      ensures x in s.registered
    {
      assert x in multiset(r);
      assert x in multiset(s.registered);
    }
    if HoldsHeapRefs(s, heapSize) {
      forall j | 0 <= j < |r|
        ensures r[j] < heapSize
      {
        assert r[j] in s.registered;
      }
    }
  }

  /** A registry with no courses and no students (the two `new ...Database()`
      calls). */
  function EmptyRegistry(): (r: Registry)
    ensures Valid(r)
    ensures forall code :: Get(r.courses, code) == None
    ensures forall id :: Get(r.students, id) == None
  {
    Registry([], Empty(), Empty())
  }

  /** `courseDatabase.addCourse(new Course(...))`: allocate a fresh course
      object and file it under its code. An object previously filed under the
      same code stays on the heap, still referenced by any student holding
      it, but the database no longer reaches it. */
  function AddNewCourse(reg: Registry, code: string, title: string, description: string,
                        capacity: int32, schedule: string): (r: Registry)
    ensures |r.heap| == |reg.heap| + 1
    ensures r.heap[..|reg.heap|] == reg.heap
    ensures r.heap[|reg.heap|] == Courses.NewCourse(code, title, description, capacity, schedule)
    ensures Get(r.courses, code) == Some(|reg.heap|)
    ensures forall other :: other != code ==> Get(r.courses, other) == Get(reg.courses, other)
    ensures r.students == reg.students
  {
    var heap := reg.heap + [Courses.NewCourse(code, title, description, capacity, schedule)];
    Registry(heap, AddCourse(reg.courses, heap, |reg.heap|), reg.students)
  }

  /** `studentDatabase.addStudent(new Student(...))`: file a student with no
      courses under their ID, replacing whoever was filed there. */
  function AddNewStudent(reg: Registry, id: string, name: string): (r: Registry)
    ensures r.heap == reg.heap && r.courses == reg.courses
    ensures Get(r.students, id) == Some(Students.NewStudent(id, name))
    ensures forall other :: other != id ==> Get(r.students, other) == Get(reg.students, other)
  {
    Registry(reg.heap, reg.courses, AddStudent(reg.students, Students.NewStudent(id, name)))
  }

  /** Adding a course keeps the registry well formed: the new object is
      filed under its own code and starts within its bound. */
  lemma AddNewCourseKeepsValid(reg: Registry, code: string, title: string, description: string,
                               capacity: int32, schedule: string)
    requires Valid(reg)
    ensures Valid(AddNewCourse(reg, code, title, description, capacity, schedule))
  {
  }

  /** Adding a student keeps the registry well formed: a new student holds
      no references at all. */
  lemma AddNewStudentKeepsValid(reg: Registry, id: string, name: string)
    requires Valid(reg)
    ensures Valid(AddNewStudent(reg, id, name))
  {
  }

  /** `RegistrationSystem.registerStudent`. The guards are evaluated left to
      right and stop at the first that fails: the student must exist, the
      course must exist, and only then is the course asked for a seat, so an
      unknown student never costs a course a seat. */
  function RegisterStudent(reg: Registry, studentID: string, courseCode: string): (r: Step<Registry>)
    requires CourseRefsInHeap(reg)
    ensures r.ok <==>
      && studentID in reg.students.entries
      && courseCode in reg.courses.entries
      && reg.heap[reg.courses.entries[courseCode]].enrolled
           < reg.heap[reg.courses.entries[courseCode]].capacity
    ensures r.ok ==>
      var ref := reg.courses.entries[courseCode];
      var s := reg.students.entries[studentID];
      && OnlyCourseMoved(reg, r.next, ref, 1)
      && OnlyStudentChanged(reg, r.next, studentID)
      && r.next.students.entries[studentID] == Students.RegisterCourse(s, ref)
    ensures !r.ok ==> r.next == reg
  {
    var student := Get(reg.students, studentID);
    var course := Get(reg.courses, courseCode);
    if student.None? || course.None? then Step(false, reg)
    else
      var ref := course.value;
      var seat := Courses.RegisterStudent(reg.heap[ref]);
      if !seat.ok then Step(false, reg)
      else
        var s := Students.RegisterCourse(student.value, ref);
        Step(true, Registry(reg.heap[ref := seat.next], reg.courses, Put(reg.students, studentID, s)))
  }

  /** `RegistrationSystem.dropCourse`. It asks only whether the course has a
      seat taken; whether this student holds the course is never checked. */
  function DropCourse(reg: Registry, studentID: string, courseCode: string): (r: Step<Registry>)
    requires CourseRefsInHeap(reg)
    ensures r.ok <==>
      && studentID in reg.students.entries
      && courseCode in reg.courses.entries
      && reg.heap[reg.courses.entries[courseCode]].enrolled > 0
    ensures r.ok ==>
      var ref := reg.courses.entries[courseCode];
      var s := reg.students.entries[studentID];
      && OnlyCourseMoved(reg, r.next, ref, -1)
      && OnlyStudentChanged(reg, r.next, studentID)
      && r.next.students.entries[studentID] == Students.DropCourse(s, ref)
    ensures !r.ok ==> r.next == reg
  {
    var student := Get(reg.students, studentID);
    var course := Get(reg.courses, courseCode);
    if student.None? || course.None? then Step(false, reg)
    else
      var ref := course.value;
      var seat := Courses.DropStudent(reg.heap[ref]);
      if !seat.ok then Step(false, reg)
      else
        var s := Students.DropCourse(student.value, ref);
        Step(true, Registry(reg.heap[ref := seat.next], reg.courses, Put(reg.students, studentID, s)))
  }

  /** A registration, successful or not, keeps the registry well formed; in
      particular no course goes over its capacity. */
  lemma RegisterStudentKeepsValid(reg: Registry, studentID: string, courseCode: string)
    requires Valid(reg)
    ensures Valid(RegisterStudent(reg, studentID, courseCode).next)
  {
    var r := RegisterStudent(reg, studentID, courseCode);
    if r.ok {
      var ref := reg.courses.entries[courseCode];
      var s := reg.students.entries[studentID];
      var s' := r.next.students.entries[studentID];
      assert HoldsHeapRefs(s', |r.next.heap|) by {
        forall j | 0 <= j < |s'.registered|
          ensures s'.registered[j] < |r.next.heap|
        {
          if j < |s.registered| {
            assert s'.registered[j] == s.registered[j];
          }
        }
      }
      assert Courses.EnrollmentInvariant(r.next.heap[ref]);
    }
  }

  /** A drop, successful or not, keeps the registry well formed; in
      particular no course goes below zero. */
  lemma DropCourseKeepsValid(reg: Registry, studentID: string, courseCode: string)
    requires Valid(reg)
    ensures Valid(DropCourse(reg, studentID, courseCode).next)
  {
    var r := DropCourse(reg, studentID, courseCode);
    if r.ok {
      var ref := reg.courses.entries[courseCode];
      var after := r.next;
      forall id | id in after.students.entries
        ensures after.students.entries[id].id == id
        ensures HoldsHeapRefs(after.students.entries[id], |after.heap|)
      {
        if id == studentID {
          DropKeepsHeapRefs(reg.students.entries[studentID], ref, |reg.heap|);
        } else {
          assert after.students.entries[id] == reg.students.entries[id];
        }
      }
      forall i | 0 <= i < |after.heap|
        ensures Courses.EnrollmentInvariant(after.heap[i])
      {
        if i != ref {
          assert after.heap[i] == reg.heap[i];
        }
      }
    }
  }

  /** A registration followed by a drop of the same pair restores the
      registry exactly, provided the student did not already hold the
      course. */
  lemma RegisterThenDropRestores(reg: Registry, studentID: string, courseCode: string)
    requires Valid(reg)
    requires RegisterStudent(reg, studentID, courseCode).ok
    requires reg.courses.entries[courseCode] !in reg.students.entries[studentID].registered
    ensures DropCourse(RegisterStudent(reg, studentID, courseCode).next, studentID, courseCode)
            == Step(true, reg)
  {
    var ref := reg.courses.entries[courseCode];
    var s := reg.students.entries[studentID];
    var up := RegisterStudent(reg, studentID, courseCode).next;
    Courses.RegisterThenDrop(reg.heap[ref]);
    Students.RegisterThenDropRestores(s, ref);
    var down := DropCourse(up, studentID, courseCode);
    assert down.ok;
    assert down.next.heap == reg.heap;
    PutOverwrites(reg.students, studentID, Students.RegisterCourse(s, ref), s);
    PutOfGetIsIdentity(reg.students, studentID);
    assert down.next.students == reg.students;
  }

  /** The drop quirk: a student who does not hold the course can still drop
      it whenever some seat is taken. The course loses a seat that another
      student's list still accounts for, and this student is unchanged. */
  lemma DropWithoutHoldingFreesASeat(reg: Registry, studentID: string, courseCode: string)
    requires CourseRefsInHeap(reg)
    requires studentID in reg.students.entries && courseCode in reg.courses.entries
    requires reg.heap[reg.courses.entries[courseCode]].enrolled > 0
    requires reg.courses.entries[courseCode] !in reg.students.entries[studentID].registered
    ensures DropCourse(reg, studentID, courseCode).ok
    ensures DropCourse(reg, studentID, courseCode).next.students == reg.students
    ensures OnlyCourseMoved(reg, DropCourse(reg, studentID, courseCode).next,
                            reg.courses.entries[courseCode], -1)
  {
  }

  /** The duplicate quirk: registering a student for a course they already
      hold succeeds while there is room and leaves two copies in their list,
      taking a second seat. */
  lemma RegisterTwiceHoldsTwice(reg: Registry, studentID: string, courseCode: string)
    requires CourseRefsInHeap(reg)
    requires studentID in reg.students.entries && courseCode in reg.courses.entries
    requires reg.courses.entries[courseCode] in reg.students.entries[studentID].registered
    requires reg.heap[reg.courses.entries[courseCode]].enrolled
             < reg.heap[reg.courses.entries[courseCode]].capacity
    ensures var r := RegisterStudent(reg, studentID, courseCode);
      && r.ok
      && multiset(r.next.students.entries[studentID].registered)[reg.courses.entries[courseCode]] >= 2
  {
  }
}
