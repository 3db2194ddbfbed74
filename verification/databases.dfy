/** `CourseDatabase` and `StudentDatabase`: each a keyed store whose key is
    taken from the entity being added. */
module Databases {
  import opened JavaTypes
  import opened Store
  import opened Courses
  import opened Students

  /** Course code to course object (a reference into the course heap). */
  type CourseDatabase = Table<CourseRef>

  /** Student ID to student. */
  type StudentDatabase = Table<Student>

  /** `addCourse`: file the course object under its own code, replacing any
      object previously filed under that code. */
  function AddCourse(db: CourseDatabase, heap: seq<Course>, ref: CourseRef): (r: CourseDatabase)
    requires ref < |heap|
    ensures Get(r, heap[ref].code) == Some(ref)
    ensures forall code :: code != heap[ref].code ==> Get(r, code) == Get(db, code)
  {
    Put(db, heap[ref].code, ref)
  }

  /** `addStudent`: file the student under their own ID, replacing any student
      previously filed under that ID. */
  function AddStudent(db: StudentDatabase, s: Student): (r: StudentDatabase)
    ensures Get(r, s.id) == Some(s)
    ensures forall id :: id != s.id ==> Get(r, id) == Get(db, id)
  {
    Put(db, s.id, s)
  }

  /** Adding two students with the same ID keeps only the second. */
  lemma AddStudentLastWins(db: StudentDatabase, s1: Student, s2: Student)
    requires s1.id == s2.id
    ensures AddStudent(AddStudent(db, s1), s2) == AddStudent(db, s2)
  {
  }
}
