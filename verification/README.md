# Course registration: enrollment state machine

A Dafny model of the enrollment core of a small in-memory course registration
system (`RegistrationSystem.java`). Courses carry an enrollment counter bounded
by a capacity; students carry an ordered list of the courses they hold; two
databases map course codes and student IDs to those entities; and the
registration system looks a pair up and applies a guarded transition to both
entities together.

Modules, leaf first:

- `JavaTypes` (`java_types.dfy`): Java's 32-bit `int` as `int32`, a nullable
  result `Option`, and `Step(ok, next)`, the success flag plus the new state
  that every guarded transition returns.
- `Courses` (`course.dfy`): `Course`, its constructor, `RegisterStudent` and
  `DropStudent`, and the enrollment bound over any sequence of calls.
- `Students` (`student.dfy`): `Student`, `RegisterCourse` (append) and
  `DropCourse` (remove the first copy, as `List.remove(Object)` does).
- `Store` (`store.dfy`): the keyed store both databases are (`HashMap` used
  through `put` and `get`).
- `Databases` (`databases.dfy`): `AddCourse` and `AddStudent`, which key the
  entity by its own code or ID.
- `Registration` (`registration.dfy`): the registry state, the well-formedness
  invariant `Valid`, and `RegisterStudent` / `DropCourse` of the system.
- `Session` (`session.dfy`): commands, running any sequence of them, the
  start-up seeding, and scenarios.

Modelling choices:

- Course objects live on an explicit heap (`seq<Course>`), and a course
  reference is a position in it. The course database maps a code to a
  reference and a student's list holds references. The source's lists hold
  object references and `Course` does not override `equals`, so
  `List.remove` works by identity. With references the model stays exact
  when `addCourse` later files a new object under a code that is already in
  use (`ReAddedCodeKeepsOldReference`). A list of course codes would be
  exact only while no code is ever re-added.
- Students are values in the student map. No other holder of a `Student`
  reference exists, so updating a student in place is a `put` of the
  updated value under the same ID.
- Java's `int` is `int32`. The verifier checks every `enrolled++` and
  `enrolled--` against the 32-bit range, so the model shows that they never
  wrap: the guards rule it out.
- Each transition returns the source's success or failure message as a flag
  in `Step.ok`, together with the new state.
- `Registration.RegisterStudent` and `DropCourse` require `CourseRefsInHeap`,
  which says the course database refers only to existing course objects.
  Java references guarantee this, and every registry built by the
  operations satisfies it (`Valid` implies it).
- The course-level invariant is `0 <= enrolled && (enrolled == 0 || enrolled
  <= capacity)`. The constructor does not validate the capacity, and a zero
  or negative capacity is accepted. The enrollment bound is usually stated as
  `0 <= enrolled <= capacity` for a positive capacity. The code also accepts
  a non-positive capacity, which keeps the course at zero. The model follows
  the code.

## Model

| member | source | states |
|---|---|---|
| Courses.NewCourse | RegistrationSystem.java:15-22 | a new course has nobody enrolled, keeps the capacity exactly as given (no validation), and satisfies the enrollment bound |
| Courses.RegisterStudent | RegistrationSystem.java:48-54 | succeeds iff `enrolled < capacity`; on success the counter rises by exactly one and nothing else changes; on failure the course is unchanged; the enrollment bound is preserved |
| Courses.DropStudent | RegistrationSystem.java:56-62 | succeeds iff `enrolled > 0`; on success the counter falls by exactly one and nothing else changes; on failure the course is unchanged; the bound is preserved |
| Courses.RegisterThenDrop | RegistrationSystem.java:48-62 | a successful registration is undone exactly by a drop |
| Courses.DropThenRegister | RegistrationSystem.java:48-62 | a successful drop from a course within its bound is undone exactly by a registration |
| Courses.GuardsAtTheBounds | RegistrationSystem.java:48-62 | a full course refuses a registration and an empty course refuses a drop, both without change |
| Courses.Replay | RegistrationSystem.java:48-62 | any sequence of register and drop calls changes only the counter of the course |
| Courses.ReplayKeepsInvariant | RegistrationSystem.java:48-62 | from any course within its bound (so from a new one), any sequence of register and drop calls keeps `0 <= enrolled <= capacity`, and a negative capacity keeps the counter at zero |
| Courses.ReplayMovesByAtMostOnePerCall | RegistrationSystem.java:48-62 | each call moves the counter by one seat at most |
| Students.NewStudent | RegistrationSystem.java:77-81 | a new student holds no courses |
| Students.FirstIndex | RegistrationSystem.java:99-101 | the position `List.remove` looks for: it holds the element and no earlier position does |
| Students.RemoveFirst | RegistrationSystem.java:99-101 | `List.remove(Object)` leaves the list unchanged when the element is absent and removes exactly one element when it is present |
| Students.RemoveFirstTakesOneCopy | RegistrationSystem.java:99-101 | removal takes away one copy of the element, if there is one, and keeps the count of every other element |
| Students.RemoveFirstOfSplit | RegistrationSystem.java:99-101 | for a list split at a copy of `x` with no `x` before it, removal joins the prefix to the suffix |
| Students.RemoveFirstCutsAtFirstIndex | RegistrationSystem.java:99-101 | the copy removed is the first one: the list is cut around the first index, and nothing else moves |
| Students.RemoveFirstBeforeAppended | RegistrationSystem.java:95-101 | when a copy is already present, appending another does not change which copy is removed |
| Students.RegisterCourse | RegistrationSystem.java:95-97 | `registerCourse` appends unconditionally: the list grows by one, the earlier entries stay in place, the course is last, and it gains one copy even if already held |
| Students.DropCourse | RegistrationSystem.java:99-101 | `dropCourse` leaves a student who does not hold the course unchanged, shortens the list by one when they hold it, and keeps the ID and name |
| Students.DropCourseTakesOneCopy | RegistrationSystem.java:99-101 | `dropCourse` takes away one copy of the course, if held, and keeps the count of every other course |
| Students.DropCourseCutsAtFirstCopy | RegistrationSystem.java:99-101 | the copy `dropCourse` removes is the first occurrence |
| Students.RegisterKeepsDuplicates | RegistrationSystem.java:95-97 | registering for a course already held leaves at least two copies in the list (duplicates are kept) |
| Students.RegisterThenDropRestores | RegistrationSystem.java:95-101 | registering and then dropping a course the student did not hold restores the student exactly |
| Students.RegisterThenDropOfHeldCourse | RegistrationSystem.java:95-101 | registering and then dropping a course already held removes the earlier copy, so the course moves to the end of the list |
| Students.RegisterThenDropKeepsCourses | RegistrationSystem.java:95-101 | in every case, register-then-drop leaves the student holding the same courses the same number of times |
| Store.Empty | RegistrationSystem.java:113-115 | a new database answers `null` for every key |
| Store.Get | RegistrationSystem.java:121-123 | `get` returns `null` exactly when the key is absent, and otherwise the stored entity; it never fails (the same holds for `getStudent`, lines 143-145) |
| Store.Put | RegistrationSystem.java:117-119 | `put` makes the key map to the new entity, leaves every other key as it was, and adds the key to the key set |
| Store.PutOverwrites | RegistrationSystem.java:117-119 | a second `put` under the same key replaces the first entirely |
| Store.PutsOnDistinctKeysCommute | RegistrationSystem.java:117-119 | `put`s under different keys do not interfere with each other |
| Store.PutOfGetIsIdentity | RegistrationSystem.java:117-119 | putting back what a key already holds changes nothing |
| Databases.AddCourse | RegistrationSystem.java:117-119 | after `addCourse`, `get` on the course's own code returns that course object and every other code is unaffected |
| Databases.AddStudent | RegistrationSystem.java:139-141 | after `addStudent`, `get` on the student's ID returns that student and every other ID is unaffected |
| Databases.AddStudentLastWins | RegistrationSystem.java:139-141 | of two students added under the same ID, only the last is kept |
| Registration.EmptyRegistry | RegistrationSystem.java:186-187 | the empty databases are well formed and hold no course and no student |
| Registration.AddNewCourse | RegistrationSystem.java:117-119 | `addCourse(new Course(...))` allocates a fresh object with nobody enrolled. The code now maps to it, and other codes, students and older objects are unchanged |
| Registration.AddNewStudent | RegistrationSystem.java:139-141 | `addStudent(new Student(...))` files a student with no courses under the ID, replacing any previous one, and leaves other IDs and all courses unchanged |
| Registration.AddNewCourseKeepsValid | RegistrationSystem.java:117-119 | adding a course keeps the registry well formed |
| Registration.AddNewStudentKeepsValid | RegistrationSystem.java:139-141 | adding a student keeps the registry well formed |
| Registration.DropKeepsHeapRefs | RegistrationSystem.java:99-101 | every reference a student's list holds after a drop was already in the list before, so a list that pointed only at existing course objects still does |
| Registration.RegisterStudent | RegistrationSystem.java:157-167 | succeeds iff the student exists, the course exists and it has room. On success, only that course's counter rises by one and only that student's list gets the course appended. On any failure, including an unknown ID, the registry is unchanged, because the guards stop before the course is asked |
| Registration.DropCourse | RegistrationSystem.java:169-179 | succeeds iff both exist and the course has `enrolled > 0`, whether or not the student holds the course. On success, only that course's counter falls by one and only that student's list loses at most its first copy. On failure the registry is unchanged |
| Registration.RegisterStudentKeepsValid | RegistrationSystem.java:157-167 | a registration, successful or not, keeps the registry well formed, so no course exceeds its capacity |
| Registration.DropCourseKeepsValid | RegistrationSystem.java:169-179 | a drop, successful or not, keeps the registry well formed, so no counter goes negative |
| Registration.RegisterThenDropRestores | RegistrationSystem.java:157-179 | registering a student for a course they do not hold and then dropping it restores the whole registry exactly |
| Registration.DropWithoutHoldingFreesASeat | RegistrationSystem.java:169-179 | a student who does not hold the course can still drop it while a seat is taken. The course loses a seat and the student database is unchanged |
| Registration.RegisterTwiceHoldsTwice | RegistrationSystem.java:157-167 | registering for a course already held succeeds while there is room and leaves two copies in the student's list |
| Session.Execute | RegistrationSystem.java:157-179 | every operation keeps the registry well formed, additions always succeed, and a failed registration or drop changes nothing |
| Session.Run | RegistrationSystem.java:48-62 | after any sequence of additions, registrations and drops, every course the database reaches has `0 <= enrolled`, and `enrolled <= capacity` when the capacity is non-negative |
| Session.Seed | RegistrationSystem.java:186-193 | the start-up seeding yields a well-formed registry |
| Session.SeedContents | RegistrationSystem.java:189-193 | the seeding yields two courses on two distinct objects, CS101 with capacity 30 and MATH101 with capacity 25, and two students, with nobody enrolled anywhere |
| Session.OneSeatScenario | RegistrationSystem.java:157-179 | with a one-seat course, the first student's registration succeeds, the second's fails without change, and the first student's drop empties the course again |
| Session.ReAddedCodeKeepsOldReference | RegistrationSystem.java:117-119 | once a code is re-added, earlier students' references point at the old object. A successful drop of that code moves only the new object's counter, leaves the earlier student's list unchanged, and leaves the old object untouched |

## Left out

- The `main` menu loop and console input (lines 197-227): console I/O glue. A
  malformed menu number makes `Scanner.nextInt` throw, which is not modelled.
- Every `System.out.println` message. The two messages of each registry
  operation are the `Step.ok` flag.
- `toString` of `Course` and `Student`, `CourseDatabase.displayCourses` and
  `RegistrationSystem.displayAvailableCourses` (lines 64-69, 103-107,
  125-129, 181-183). These render strings in `HashMap` iteration order, which
  Java leaves unspecified.
- The getters (lines 24-46, 83-93): trivial accessors. The model reads the
  datatype fields directly.
- `title`, `description`, `schedule` and `name` are carried as opaque strings
  and never inspected, as in the source.
- Adding the same `Course` object twice, or adding one object under a
  second database, is not modelled. `AddNewCourse` always allocates a fresh
  object, as every call in the source does (`addCourse(new Course(...))`).
