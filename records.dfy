/**
 * The record shapes of the class manager: the entities a caller builds
 * (Student, Teacher, Course) and the flat documents stored for them, with
 * the conversion `to_dict` from the first to the second.
 */
module Records {

  datatype Option<T> = None | Some(value: T)

  /**
   * A student as its constructor builds it. The constructor also sets the
   * object's enrollment list to the empty list and nothing changes it on the
   * object afterwards, so the list is not carried here: StudentToDict
   * writes it out empty.
   */
  datatype Student = Student(personId: string, name: string, email: string, gradeLevel: int)

  /** A teacher as its constructor builds it; its course list starts empty. */
  datatype Teacher = Teacher(personId: string, name: string, email: string, specialization: string)

  /** A course as its constructor builds it; no teacher and no students yet. */
  datatype Course = Course(code: string, title: string, schedule: string)

  /** The document stored in the `students` collection, keyed by studentId. */
  datatype StudentRecord =
    StudentRecord(studentId: string, name: string, email: string, gradeLevel: int, enrollments: seq<string>)

  /** The document stored in the `teachers` collection, keyed by teacherId. */
  datatype TeacherRecord =
    TeacherRecord(teacherId: string, name: string, email: string, specialization: string, courses: seq<string>)

  /** The document stored in the `courses` collection, keyed by courseCode. */
  datatype CourseRecord =
    CourseRecord(courseCode: string, title: string, schedule: string, teacherId: Option<string>, students: seq<string>)

  /** The entity a stored student document was made from. */
  function StudentOf(r: StudentRecord): Student
  {
    Student(r.studentId, r.name, r.email, r.gradeLevel)
  }

  function TeacherOf(r: TeacherRecord): Teacher
  {
    Teacher(r.teacherId, r.name, r.email, r.specialization)
  }

  function CourseOf(r: CourseRecord): Course
  {
    Course(r.courseCode, r.title, r.schedule)
  }

  /**
   * `Student.to_dict`: the person id becomes the `student_id` key field,
   * the other fields are copied, and the enrollment list is empty.
   */
  function StudentToDict(s: Student): (r: StudentRecord)
    ensures r.studentId == s.personId
    ensures r.enrollments == []
    ensures StudentOf(r) == s
  {
    StudentRecord(s.personId, s.name, s.email, s.gradeLevel, [])
  }

  /** `Teacher.to_dict`: the person id becomes `teacher_id`; no courses yet. */
  function TeacherToDict(t: Teacher): (r: TeacherRecord)
    ensures r.teacherId == t.personId
    ensures r.courses == []
    ensures TeacherOf(r) == t
  {
    TeacherRecord(t.personId, t.name, t.email, t.specialization, [])
  }

  /** `Course.to_dict`: the code becomes `course_code`; unassigned, empty. */
  function CourseToDict(c: Course): (r: CourseRecord)
    ensures r.courseCode == c.code
    ensures r.teacherId == None && r.students == []
    ensures CourseOf(r) == c
  {
    CourseRecord(c.code, c.title, c.schedule, None, [])
  }

  /** A stored student document is exactly what to_dict produces iff nothing was linked to it yet. */
  lemma StudentToDictImage(r: StudentRecord)
    ensures StudentToDict(StudentOf(r)) == r <==> r.enrollments == []
  {
    if r.enrollments != [] {
      assert StudentToDict(StudentOf(r)).enrollments != r.enrollments;
    }
  }

  lemma TeacherToDictImage(r: TeacherRecord)
    ensures TeacherToDict(TeacherOf(r)) == r <==> r.courses == []
  {
    if r.courses != [] {
      assert TeacherToDict(TeacherOf(r)).courses != r.courses;
    }
  }

  lemma CourseToDictImage(r: CourseRecord)
    ensures CourseToDict(CourseOf(r)) == r <==> r.teacherId == None && r.students == []
  {
    if r.teacherId != None || r.students != [] {
      assert CourseToDict(CourseOf(r)) != r;
    }
  }

  /** to_dict loses nothing: two entities with the same document are equal. */
  lemma StudentToDictInjective(a: Student, b: Student)
    ensures StudentToDict(a) == StudentToDict(b) <==> a == b
  {
    if StudentToDict(a) == StudentToDict(b) {
      assert a == StudentOf(StudentToDict(a));
    }
  }
}
