/**
 * The three collections of the class manager as one value, the invariant
 * that relates them, and what each ClassManager operation does to them,
 * stated as a function from the state before to the state after together
 * with the (success, message) pair the operation returns.
 */
module Catalog {
  import opened Records
  import opened Lists

  /** The `students`, `teachers` and `courses` collections, each keyed by its natural key. */
  datatype Db = Db(
    students: map<string, StudentRecord>,
    teachers: map<string, TeacherRecord>,
    courses: map<string, CourseRecord>)

  /** The (success, message) pair every operation returns. */
  datatype Reply = Reply(ok: bool, message: string)

  /** The state after an operation and its reply. */
  datatype Effect = Effect(after: Db, reply: Reply)

  /** Three empty collections. */
  function EmptyDb(): Db
  {
    Db(map[], map[], map[])
  }

  /** `after` is `before` with one more key, bound to v, and every other entry kept. */
  ghost predicate InsertedOnly<V>(before: map<string, V>, after: map<string, V>, k: string, v: V)
  {
    && k !in before
    && after.Keys == before.Keys + {k}
    && after[k] == v
    && forall j :: j in before ==> after[j] == before[j]
  }

  // ---------------------------------------------------------------------
  // The invariant
  // ---------------------------------------------------------------------

  /** Every document is stored under its own key field. */
  ghost predicate KeysMatch(db: Db)
  {
    && (forall k :: k in db.students ==> db.students[k].studentId == k)
    && (forall k :: k in db.teachers ==> db.teachers[k].teacherId == k)
    && (forall k :: k in db.courses ==> db.courses[k].courseCode == k)
  }

  /** No relationship list holds an element twice. */
  ghost predicate ListsDistinct(db: Db)
  {
    && (forall k :: k in db.students ==> NoDup(db.students[k].enrollments))
    && (forall k :: k in db.teachers ==> NoDup(db.teachers[k].courses))
    && (forall k :: k in db.courses ==> NoDup(db.courses[k].students))
  }

  /** Every reference names a record that exists. */
  ghost predicate NoDangling(db: Db)
  {
    && (forall s, c :: s in db.students && c in db.students[s].enrollments ==> c in db.courses)
    && (forall c, s :: c in db.courses && s in db.courses[c].students ==> s in db.students)
    && (forall t, c :: t in db.teachers && c in db.teachers[t].courses ==> c in db.courses)
    && (forall c :: c in db.courses && db.courses[c].teacherId.Some? ==> db.courses[c].teacherId.value in db.teachers)
  }

  /** A student lists a course exactly when the course lists the student. */
  ghost predicate EnrollmentsAgree(db: Db)
  {
    forall s, c :: s in db.students && c in db.courses ==>
      (c in db.students[s].enrollments <==> s in db.courses[c].students)
  }

  /** The teacher a course points to lists that course. */
  ghost predicate AssignmentsRecorded(db: Db)
  {
    forall c :: c in db.courses && db.courses[c].teacherId.Some? && db.courses[c].teacherId.value in db.teachers ==>
      c in db.teachers[db.courses[c].teacherId.value].courses
  }

  ghost predicate Consistent(db: Db)
  {
    KeysMatch(db) && ListsDistinct(db) && NoDangling(db) && EnrollmentsAgree(db) && AssignmentsRecorded(db)
  }

  lemma EmptyDbConsistent()
    ensures Consistent(EmptyDb())
  {
  }

  // ---------------------------------------------------------------------
  // The operations
  // ---------------------------------------------------------------------

  /** `create_student`: refuses a taken student id, otherwise stores to_dict of the student. */
  function CreateStudent(db: Db, s: Student): (e: Effect)
    ensures e.reply.ok <==> s.personId !in db.students
    ensures !e.reply.ok ==> e.after == db && e.reply.message == "Student ID already exists"
    ensures e.reply.ok ==>
      && e.reply.message == "Student created"
      && InsertedOnly(db.students, e.after.students, s.personId, StudentToDict(s))
      && e.after.teachers == db.teachers && e.after.courses == db.courses
  {
    if s.personId in db.students then
      Effect(db, Reply(false, "Student ID already exists"))
    else
      Effect(db.(students := db.students[s.personId := StudentToDict(s)]), Reply(true, "Student created"))
  }

  /** `create_teacher`: refuses a taken teacher id, otherwise stores to_dict of the teacher. */
  function CreateTeacher(db: Db, t: Teacher): (e: Effect)
    ensures e.reply.ok <==> t.personId !in db.teachers
    ensures !e.reply.ok ==> e.after == db && e.reply.message == "Teacher ID already exists"
    ensures e.reply.ok ==>
      && e.reply.message == "Teacher created"
      && InsertedOnly(db.teachers, e.after.teachers, t.personId, TeacherToDict(t))
      && e.after.students == db.students && e.after.courses == db.courses
  {
    if t.personId in db.teachers then
      Effect(db, Reply(false, "Teacher ID already exists"))
    else
      Effect(db.(teachers := db.teachers[t.personId := TeacherToDict(t)]), Reply(true, "Teacher created"))
  }

  /** `create_course`: refuses a taken course code, otherwise stores to_dict of the course. */
  function CreateCourse(db: Db, c: Course): (e: Effect)
    ensures e.reply.ok <==> c.code !in db.courses
    ensures !e.reply.ok ==> e.after == db && e.reply.message == "Course code already exists"
    ensures e.reply.ok ==>
      && e.reply.message == "Course created"
      && InsertedOnly(db.courses, e.after.courses, c.code, CourseToDict(c))
      && e.after.students == db.students && e.after.teachers == db.teachers
  {
    if c.code in db.courses then
      Effect(db, Reply(false, "Course code already exists"))
    else
      Effect(db.(courses := db.courses[c.code := CourseToDict(c)]), Reply(true, "Course created"))
  }

  /**
   * `assign_teacher`: both records must exist; the course's teacher is
   * overwritten and the course is appended to the new teacher's list unless
   * already there. A previous teacher's list is left alone.
   */
  function AssignTeacher(db: Db, teacherId: string, courseCode: string): (e: Effect)
    ensures e.reply.ok <==> teacherId in db.teachers && courseCode in db.courses
    ensures !e.reply.ok ==> e.after == db && e.reply.message == "Teacher or course not found"
    ensures e.reply.ok ==>
      && e.reply.message == "Teacher assigned"
      && e.after.students == db.students
      && e.after.teachers.Keys == db.teachers.Keys
      && e.after.courses.Keys == db.courses.Keys
      // the course now points to this teacher; nothing else about it changes
      && e.after.courses[courseCode] == db.courses[courseCode].(teacherId := Some(teacherId))
      // the teacher lists the course, gaining at most that one entry at the end
      && e.after.teachers[teacherId] == db.teachers[teacherId].(courses := e.after.teachers[teacherId].courses)
      && courseCode in e.after.teachers[teacherId].courses
      && (courseCode in db.teachers[teacherId].courses ==> e.after.teachers[teacherId] == db.teachers[teacherId])
      && (courseCode !in db.teachers[teacherId].courses ==>
            e.after.teachers[teacherId].courses == db.teachers[teacherId].courses + [courseCode])
      // every other record is untouched, including a previously assigned teacher
      && (forall c :: c in db.courses && c != courseCode ==> e.after.courses[c] == db.courses[c])
      && (forall t :: t in db.teachers && t != teacherId ==> e.after.teachers[t] == db.teachers[t])
  {
    if teacherId !in db.teachers || courseCode !in db.courses then
      Effect(db, Reply(false, "Teacher or course not found"))
    else
      var t := db.teachers[teacherId];
      var c := db.courses[courseCode];
      Effect(
        db.(courses := db.courses[courseCode := c.(teacherId := Some(teacherId))],
            teachers := db.teachers[teacherId := t.(courses := AppendIfAbsent(t.courses, courseCode))]),
        Reply(true, "Teacher assigned"))
  }

  /**
   * `enroll_student`: both records must exist; the student id is appended
   * to the course's list and the course code to the student's list, each
   * only when absent.
   */
  function EnrollStudent(db: Db, studentId: string, courseCode: string): (e: Effect)
    ensures e.reply.ok <==> studentId in db.students && courseCode in db.courses
    ensures !e.reply.ok ==> e.after == db && e.reply.message == "Student or course not found"
    ensures e.reply.ok ==>
      && e.reply.message == "Student enrolled"
      && e.after.teachers == db.teachers
      && e.after.students.Keys == db.students.Keys
      && e.after.courses.Keys == db.courses.Keys
      // both sides now hold the link
      && studentId in e.after.courses[courseCode].students
      && courseCode in e.after.students[studentId].enrollments
      // only the two lists change, each by at most one element at its end
      && e.after.courses[courseCode] == db.courses[courseCode].(students := e.after.courses[courseCode].students)
      && e.after.students[studentId] == db.students[studentId].(enrollments := e.after.students[studentId].enrollments)
      && (studentId in db.courses[courseCode].students ==> e.after.courses[courseCode] == db.courses[courseCode])
      && (studentId !in db.courses[courseCode].students ==>
            e.after.courses[courseCode].students == db.courses[courseCode].students + [studentId])
      && (courseCode in db.students[studentId].enrollments ==> e.after.students[studentId] == db.students[studentId])
      && (courseCode !in db.students[studentId].enrollments ==>
            e.after.students[studentId].enrollments == db.students[studentId].enrollments + [courseCode])
      // every other record is untouched
      && (forall c :: c in db.courses && c != courseCode ==> e.after.courses[c] == db.courses[c])
      && (forall s :: s in db.students && s != studentId ==> e.after.students[s] == db.students[s])
  {
    if studentId !in db.students || courseCode !in db.courses then
      Effect(db, Reply(false, "Student or course not found"))
    else
      var s := db.students[studentId];
      var c := db.courses[courseCode];
      Effect(
        db.(courses := db.courses[courseCode := c.(students := AppendIfAbsent(c.students, studentId))],
            students := db.students[studentId := s.(enrollments := AppendIfAbsent(s.enrollments, courseCode))]),
        Reply(true, "Student enrolled"))
  }

  // ---------------------------------------------------------------------
  // Properties
  // ---------------------------------------------------------------------

  lemma CreateStudentKeepsConsistent(db: Db, s: Student)
    requires Consistent(db)
    ensures Consistent(CreateStudent(db, s).after)
  {
  }

  lemma CreateTeacherKeepsConsistent(db: Db, t: Teacher)
    requires Consistent(db)
    ensures Consistent(CreateTeacher(db, t).after)
  {
  }

  lemma CreateCourseKeepsConsistent(db: Db, c: Course)
    requires Consistent(db)
    ensures Consistent(CreateCourse(db, c).after)
  {
  }

  lemma AssignTeacherKeepsConsistent(db: Db, teacherId: string, courseCode: string)
    requires Consistent(db)
    ensures Consistent(AssignTeacher(db, teacherId, courseCode).after)
  {
    if teacherId in db.teachers && courseCode in db.courses {
      AssignKeepsShape(db, teacherId, courseCode);
      AssignKeepsReferences(db, teacherId, courseCode);
      AssignKeepsAgreement(db, teacherId, courseCode);
      AssignRecordsTeacher(db, teacherId, courseCode);
    }
  }

  lemma AssignKeepsShape(db: Db, teacherId: string, courseCode: string)
    requires KeysMatch(db) && ListsDistinct(db)
    requires teacherId in db.teachers && courseCode in db.courses
    ensures KeysMatch(AssignTeacher(db, teacherId, courseCode).after)
    ensures ListsDistinct(AssignTeacher(db, teacherId, courseCode).after)
  {
    var d := AssignTeacher(db, teacherId, courseCode).after;
    forall k | k in d.teachers ensures d.teachers[k].teacherId == k && NoDup(d.teachers[k].courses) {
      if k != teacherId { assert d.teachers[k] == db.teachers[k]; }
    }
    forall k | k in d.courses ensures d.courses[k].courseCode == k && NoDup(d.courses[k].students) {
      if k != courseCode { assert d.courses[k] == db.courses[k]; }
    }
  }

  lemma AssignKeepsReferences(db: Db, teacherId: string, courseCode: string)
    requires NoDangling(db)
    requires teacherId in db.teachers && courseCode in db.courses
    ensures NoDangling(AssignTeacher(db, teacherId, courseCode).after)
  {
    var d := AssignTeacher(db, teacherId, courseCode).after;
    forall c, s | c in d.courses && s in d.courses[c].students ensures s in d.students {
      assert d.courses[c].students == db.courses[c].students;
    }
    forall t, c | t in d.teachers && c in d.teachers[t].courses ensures c in d.courses {
      if t != teacherId { assert d.teachers[t] == db.teachers[t]; }
    }
    forall c | c in d.courses && d.courses[c].teacherId.Some? ensures d.courses[c].teacherId.value in d.teachers {
      if c != courseCode { assert d.courses[c] == db.courses[c]; }
    }
  }

  lemma AssignKeepsAgreement(db: Db, teacherId: string, courseCode: string)
    requires EnrollmentsAgree(db)
    requires teacherId in db.teachers && courseCode in db.courses
    ensures EnrollmentsAgree(AssignTeacher(db, teacherId, courseCode).after)
  {
    var d := AssignTeacher(db, teacherId, courseCode).after;
    forall s, c | s in d.students && c in d.courses
      ensures c in d.students[s].enrollments <==> s in d.courses[c].students
    {
      assert d.courses[c].students == db.courses[c].students;
    }
  }

  lemma AssignRecordsTeacher(db: Db, teacherId: string, courseCode: string)
    requires AssignmentsRecorded(db)
    requires teacherId in db.teachers && courseCode in db.courses
    ensures AssignmentsRecorded(AssignTeacher(db, teacherId, courseCode).after)
  {
    var d := AssignTeacher(db, teacherId, courseCode).after;
    forall c | c in d.courses && d.courses[c].teacherId.Some? && d.courses[c].teacherId.value in d.teachers
      ensures c in d.teachers[d.courses[c].teacherId.value].courses
    {
      if c != courseCode {
        var t := db.courses[c].teacherId.value;
        assert d.courses[c] == db.courses[c];
        assert c in db.teachers[t].courses;
        if t != teacherId { assert d.teachers[t] == db.teachers[t]; }
      }
    }
  }

  lemma EnrollStudentKeepsConsistent(db: Db, studentId: string, courseCode: string)
    requires Consistent(db)
    ensures Consistent(EnrollStudent(db, studentId, courseCode).after)
  {
    if studentId in db.students && courseCode in db.courses {
      EnrollKeepsShape(db, studentId, courseCode);
      EnrollKeepsReferences(db, studentId, courseCode);
      EnrollKeepsAgreement(db, studentId, courseCode);
      EnrollRecordsTeachers(db, studentId, courseCode);
    }
  }

  lemma EnrollKeepsShape(db: Db, studentId: string, courseCode: string)
    requires KeysMatch(db) && ListsDistinct(db)
    requires studentId in db.students && courseCode in db.courses
    ensures KeysMatch(EnrollStudent(db, studentId, courseCode).after)
    ensures ListsDistinct(EnrollStudent(db, studentId, courseCode).after)
  {
    var d := EnrollStudent(db, studentId, courseCode).after;
    forall k | k in d.students ensures d.students[k].studentId == k && NoDup(d.students[k].enrollments) {
      if k != studentId { assert d.students[k] == db.students[k]; }
    }
    forall k | k in d.courses ensures d.courses[k].courseCode == k && NoDup(d.courses[k].students) {
      if k != courseCode { assert d.courses[k] == db.courses[k]; }
    }
  }

  lemma EnrollRecordsTeachers(db: Db, studentId: string, courseCode: string)
    requires AssignmentsRecorded(db)
    requires studentId in db.students && courseCode in db.courses
    ensures AssignmentsRecorded(EnrollStudent(db, studentId, courseCode).after)
  {
    var d := EnrollStudent(db, studentId, courseCode).after;
    forall c | c in d.courses && d.courses[c].teacherId.Some? && d.courses[c].teacherId.value in d.teachers
      ensures c in d.teachers[d.courses[c].teacherId.value].courses
    {
      assert d.courses[c].teacherId == db.courses[c].teacherId;
    }
  }

  lemma EnrollKeepsReferences(db: Db, studentId: string, courseCode: string)
    requires NoDangling(db)
    requires studentId in db.students && courseCode in db.courses
    ensures NoDangling(EnrollStudent(db, studentId, courseCode).after)
  {
    var d := EnrollStudent(db, studentId, courseCode).after;
    forall s, c | s in d.students && c in d.students[s].enrollments ensures c in d.courses {
      if s != studentId { assert d.students[s] == db.students[s]; }
    }
    forall c, s | c in d.courses && s in d.courses[c].students ensures s in d.students {
      if c != courseCode { assert d.courses[c] == db.courses[c]; }
    }
    forall c | c in d.courses && d.courses[c].teacherId.Some? ensures d.courses[c].teacherId.value in d.teachers {
      assert d.courses[c].teacherId == db.courses[c].teacherId;
    }
  }

  lemma EnrollKeepsAgreement(db: Db, studentId: string, courseCode: string)
    requires EnrollmentsAgree(db)
    requires studentId in db.students && courseCode in db.courses
    ensures EnrollmentsAgree(EnrollStudent(db, studentId, courseCode).after)
  {
    var d := EnrollStudent(db, studentId, courseCode).after;
    forall s, c | s in d.students && c in d.courses
      ensures c in d.students[s].enrollments <==> s in d.courses[c].students
    {
      if s == studentId && c == courseCode {
      } else if s == studentId {
        assert d.courses[c] == db.courses[c];
        assert c in d.students[s].enrollments <==> c in db.students[s].enrollments;
      } else if c == courseCode {
        assert d.students[s] == db.students[s];
        assert s in d.courses[c].students <==> s in db.courses[c].students;
      } else {
        assert d.students[s] == db.students[s] && d.courses[c] == db.courses[c];
      }
    }
  }

  /** Assigning the same teacher to the same course twice is the same as once. */
  lemma AssignTeacherIdempotent(db: Db, teacherId: string, courseCode: string)
    ensures var once := AssignTeacher(db, teacherId, courseCode);
            AssignTeacher(once.after, teacherId, courseCode) == once
  {
  }

  /** Enrolling the same student in the same course twice is the same as once. */
  lemma EnrollStudentIdempotent(db: Db, studentId: string, courseCode: string)
    ensures var once := EnrollStudent(db, studentId, courseCode);
            EnrollStudent(once.after, studentId, courseCode) == once
  {
  }

  /**
   * Reassigning a course moves the course's pointer to the new teacher but
   * leaves the course in the previous teacher's list.
   */
  lemma ReassignKeepsPreviousTeacherList(db: Db, t1: string, t2: string, courseCode: string)
    requires t1 in db.teachers && t2 in db.teachers && courseCode in db.courses
    ensures var db2 := AssignTeacher(AssignTeacher(db, t1, courseCode).after, t2, courseCode).after;
            && db2.courses[courseCode].teacherId == Some(t2)
            && courseCode in db2.teachers[t1].courses
  {
  }

  /**
   * Under the invariant an enroll either finds the pair already linked and
   * changes nothing, or finds it linked on neither side and links both.
   */
  lemma EnrollLinksBothOrNeither(db: Db, studentId: string, courseCode: string)
    requires Consistent(db)
    requires studentId in db.students && courseCode in db.courses
    ensures var d := EnrollStudent(db, studentId, courseCode).after;
            && (d == db <==> courseCode in db.students[studentId].enrollments)
            && (d != db ==>
                  && d.students[studentId].enrollments == db.students[studentId].enrollments + [courseCode]
                  && d.courses[courseCode].students == db.courses[courseCode].students + [studentId])
  {
    var d := EnrollStudent(db, studentId, courseCode).after;
    if courseCode !in db.students[studentId].enrollments {
      assert d.students[studentId].enrollments != db.students[studentId].enrollments;
    }
  }

  /** After an enroll (once or repeated) each side holds the other exactly once. */
  lemma EnrolledExactlyOnce(db: Db, studentId: string, courseCode: string)
    requires Consistent(db)
    requires studentId in db.students && courseCode in db.courses
    ensures var d := EnrollStudent(db, studentId, courseCode).after;
            && multiset(d.courses[courseCode].students)[studentId] == 1
            && multiset(d.students[studentId].enrollments)[courseCode] == 1
  {
    var d := EnrollStudent(db, studentId, courseCode).after;
    EnrollStudentKeepsConsistent(db, studentId, courseCode);
    NoDupCount(d.courses[courseCode].students, studentId);
    NoDupCount(d.students[studentId].enrollments, courseCode);
  }

  /**
   * Create student S1 in grade 9 and course MATH101 in an empty database,
   * enroll the one in the other: each side then lists exactly the other.
   */
  lemma EnrollScenario()
    ensures var d0 := CreateStudent(EmptyDb(), Student("S1", "Lan", "lan@school.edu", 9)).after;
            var d1 := CreateCourse(d0, Course("MATH101", "Algebra", "Mon 08:00")).after;
            var e := EnrollStudent(d1, "S1", "MATH101");
            && e.reply == Reply(true, "Student enrolled")
            && e.after.students["S1"].enrollments == ["MATH101"]
            && e.after.courses["MATH101"].students == ["S1"]
  {
    var d0 := CreateStudent(EmptyDb(), Student("S1", "Lan", "lan@school.edu", 9)).after;
    var d1 := CreateCourse(d0, Course("MATH101", "Algebra", "Mon 08:00")).after;
    assert d1.students["S1"].enrollments == [] && d1.courses["MATH101"].students == [];
  }
}
