/** One course offering: an enrollment counter bounded by a capacity
    (class `Course` in RegistrationSystem.java). */
module Courses {
  import opened JavaTypes

  datatype Course = Course(
    code: string,
    title: string,
    description: string,
    capacity: int32,
    enrolled: int32,
    schedule: string)

  /** The bound every course keeps: the count is never negative and never
      above the capacity unless it is zero. A negative capacity is accepted
      by the constructor and simply keeps the course closed. */
  ghost predicate EnrollmentInvariant(c: Course) {
    0 <= c.enrolled && (c.enrolled == 0 || c.enrolled <= c.capacity)
  }

  /** Everything but the counter is the same. */
  ghost predicate SameOffering(a: Course, b: Course) {
    && a.code == b.code
    && a.title == b.title
    && a.description == b.description
    && a.capacity == b.capacity
    && a.schedule == b.schedule
  }

  /** The constructor: nobody enrolled, capacity stored as given with no
      validation (zero and negative capacities are accepted). */
  function NewCourse(code: string, title: string, description: string,
                     capacity: int32, schedule: string): (c: Course)
    ensures c.enrolled == 0
    ensures c.capacity == capacity
    ensures c.code == code && c.title == title && c.description == description
    ensures c.schedule == schedule
    ensures EnrollmentInvariant(c)
  {
    Course(code, title, description, capacity, 0, schedule)
  }

  /** Take one seat if there is room. */
  function RegisterStudent(c: Course): (r: Step<Course>)
    ensures r.ok <==> c.enrolled < c.capacity
    ensures r.ok ==> r.next.enrolled == c.enrolled + 1 && SameOffering(c, r.next)
    ensures !r.ok ==> r.next == c
    ensures EnrollmentInvariant(c) ==> EnrollmentInvariant(r.next)
  {
    if c.enrolled < c.capacity then
      Step(true, c.(enrolled := c.enrolled + 1))
    else
      Step(false, c)
  }

  /** Give back one seat if any is taken. */
  function DropStudent(c: Course): (r: Step<Course>)
    ensures r.ok <==> c.enrolled > 0
    ensures r.ok ==> r.next.enrolled == c.enrolled - 1 && SameOffering(c, r.next)
    ensures !r.ok ==> r.next == c
    ensures EnrollmentInvariant(c) ==> EnrollmentInvariant(r.next)
  {
    if c.enrolled > 0 then
      Step(true, c.(enrolled := c.enrolled - 1))
    else
      Step(false, c)
  }

  /** A successful registration is undone by a drop. */
  lemma RegisterThenDrop(c: Course)
    requires EnrollmentInvariant(c)
    requires RegisterStudent(c).ok
    ensures DropStudent(RegisterStudent(c).next) == Step(true, c)
  {
  }

  /** A successful drop from a course within its bound is undone by a
      registration: the freed seat is available again. */
  lemma DropThenRegister(c: Course)
    requires EnrollmentInvariant(c)
    requires DropStudent(c).ok
    ensures RegisterStudent(DropStudent(c).next) == Step(true, c)
  {
  }

  /** Full courses refuse and empty courses refuse, without change. */
  lemma GuardsAtTheBounds(c: Course)
    requires EnrollmentInvariant(c)
    ensures 0 <= c.capacity == c.enrolled ==> RegisterStudent(c) == Step(false, c)
    ensures c.enrolled == 0 ==> DropStudent(c) == Step(false, c)
  {
  }

  /** Apply a sequence of calls to one course: `true` registers a student,
      `false` drops one. Only the counter can change. */
  function Replay(c: Course, calls: seq<bool>): (r: Course)
    ensures SameOffering(c, r)
    decreases |calls|
  {
    if calls == [] then c
    else
      var step := if calls[0] then RegisterStudent(c) else DropStudent(c);
      Replay(step.next, calls[1..])
  }

  /** After any sequence of register and drop calls on a freshly constructed
      course, the counter stays within `0 <= enrolled <= capacity` (for a
      non-negative capacity; a negative one keeps it at zero). */
  lemma {:induction false} ReplayKeepsInvariant(c: Course, calls: seq<bool>)
    requires EnrollmentInvariant(c)
    ensures EnrollmentInvariant(Replay(c, calls))
    ensures c.capacity < 0 ==> Replay(c, calls).enrolled == 0
    decreases |calls|
  {
    if calls != [] {
      var step := if calls[0] then RegisterStudent(c) else DropStudent(c);
      ReplayKeepsInvariant(step.next, calls[1..]);
    }
  }

  /** Every call moves the counter by one seat at most, so a replay of n
      calls moves it by n seats at most. */
  lemma {:induction false} ReplayMovesByAtMostOnePerCall(c: Course, calls: seq<bool>)
    ensures c.enrolled as int - |calls| <= Replay(c, calls).enrolled as int <= c.enrolled as int + |calls|
    decreases |calls|
  {
    if calls != [] {
      var step := if calls[0] then RegisterStudent(c) else DropStudent(c);
      ReplayMovesByAtMostOnePerCall(step.next, calls[1..]);
    }
  }
}
