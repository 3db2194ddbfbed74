/** Sequences of operations on a registry: the seeding done at start-up and
    any later mix of additions, registrations and drops. */
module Session {
  import opened JavaTypes
  import opened Registration

  /** One operation on the registration system. */
  datatype Command =
    | AddCourseCmd(code: string, title: string, description: string, capacity: int32, schedule: string)
    | AddStudentCmd(id: string, name: string)
    | RegisterCmd(studentID: string, courseCode: string)
    | DropCmd(studentID: string, courseCode: string)

  /** Apply one command. Additions always take effect; registrations and
      drops report whether they did, and leave the registry as it was when
      they did not. */
  function Execute(reg: Registry, cmd: Command): (r: Step<Registry>)
    requires Valid(reg)
    ensures Valid(r.next)
    ensures (cmd.AddCourseCmd? || cmd.AddStudentCmd?) ==> r.ok
    ensures !r.ok ==> r.next == reg
  {
    match cmd
    case AddCourseCmd(code, title, description, capacity, schedule) =>
      AddNewCourseKeepsValid(reg, code, title, description, capacity, schedule);
      Step(true, AddNewCourse(reg, code, title, description, capacity, schedule))
    case AddStudentCmd(id, name) =>
      AddNewStudentKeepsValid(reg, id, name);
      Step(true, AddNewStudent(reg, id, name))
    case RegisterCmd(studentID, courseCode) =>
      RegisterStudentKeepsValid(reg, studentID, courseCode);
      RegisterStudent(reg, studentID, courseCode)
    case DropCmd(studentID, courseCode) =>
      DropCourseKeepsValid(reg, studentID, courseCode);
      DropCourse(reg, studentID, courseCode)
  }

  /** Apply commands in order. Whatever the sequence, the registry stays well
      formed, so every course the database reaches has
      `0 <= enrolled <= capacity` (or zero, for a negative capacity). */
  function Run(reg: Registry, cmds: seq<Command>): (r: Registry)
    requires Valid(reg)
    ensures Valid(r)
    ensures forall code :: code in r.courses.entries ==>
      var c := r.heap[r.courses.entries[code]];
      0 <= c.enrolled && (0 <= c.capacity ==> c.enrolled <= c.capacity)
    decreases |cmds|
  {
    if cmds == [] then reg
    else Run(Execute(reg, cmds[0]).next, cmds[1..])
  }

  /** The start-up seeding: two courses and two students, nobody enrolled. */
  function Seed(): (r: Registry)
    ensures Valid(r)
  {
    var r0 := EmptyRegistry();
    AddNewCourseKeepsValid(r0, "CS101", "Intro to Computer Science",
      "Basic concepts of computer science", 30, "MWF 9-10");
    var r1 := AddNewCourse(r0, "CS101", "Intro to Computer Science",
      "Basic concepts of computer science", 30, "MWF 9-10");
    AddNewCourseKeepsValid(r1, "MATH101", "Calculus I", "Introduction to calculus", 25, "TTh 11-12:30");
    var r2 := AddNewCourse(r1, "MATH101", "Calculus I", "Introduction to calculus", 25, "TTh 11-12:30");
    AddNewStudentKeepsValid(r2, "S1001", "John Doe");
    var r3 := AddNewStudent(r2, "S1001", "John Doe");
    AddNewStudentKeepsValid(r3, "S1002", "Jane Smith");
    AddNewStudent(r3, "S1002", "Jane Smith")
  }

  /** What the seeding leaves: the two course codes on two distinct course
      objects with their capacities, the two students, no enrollments. */
  lemma SeedContents()
    ensures var r := Seed();
      && r.courses.entries.Keys == {"CS101", "MATH101"}
      && r.students.entries.Keys == {"S1001", "S1002"}
      && r.heap[r.courses.entries["CS101"]].capacity == 30
      && r.heap[r.courses.entries["MATH101"]].capacity == 25
      && r.courses.entries["CS101"] != r.courses.entries["MATH101"]
      && (forall i :: 0 <= i < |r.heap| ==> r.heap[i].enrolled == 0)
      && (forall id :: id in r.students.entries ==> r.students.entries[id].registered == [])
  {
  }

  /** A one-seat course: the first student gets the seat, the second is
      refused without any change, and after the first drops the course is
      empty again. */
  lemma OneSeatScenario()
    ensures
      var r0 := AddNewCourse(EmptyRegistry(), "X", "", "", 1, "");
      var r1 := AddNewStudent(AddNewStudent(r0, "A", ""), "B", "");
      var a := RegisterStudent(r1, "A", "X");
      var b := RegisterStudent(a.next, "B", "X");
      var d := DropCourse(b.next, "A", "X");
      && a.ok && a.next.heap[0].enrolled == 1
      && !b.ok && b.next == a.next
      && d.ok && d.next.heap[0].enrolled == 0
  {
  }

  /** Registration identifies the course object, not its code. After a code
      is re-added, the references students took before point at the old
      object, which the database no longer reaches: once another student
      takes a seat in the new object, a successful drop of that code by a
      student registered earlier moves the new object's counter and removes
      nothing from that student's list, and the old object keeps its count. */
  lemma ReAddedCodeKeepsOldReference(reg: Registry, studentID: string, otherID: string,
                                     code: string, title: string, description: string,
                                     capacity: int32, schedule: string)
    requires Valid(reg)
    requires studentID in reg.students.entries && otherID in reg.students.entries
    requires studentID != otherID
    requires code in reg.courses.entries
    requires capacity > 0
    ensures
      var readded := AddNewCourse(reg, code, title, description, capacity, schedule);
      var other := RegisterStudent(readded, otherID, code);
      var drop := DropCourse(other.next, studentID, code);
      && other.ok && drop.ok
      && drop.next.heap[|reg.heap|].enrolled == 0
      && drop.next.heap[reg.courses.entries[code]] == reg.heap[reg.courses.entries[code]]
      && drop.next.students.entries[studentID] == reg.students.entries[studentID]
  {
  }
}
