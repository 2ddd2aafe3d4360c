/**
 * The ClassManager controller: three collections held in place and updated
 * by its methods. Each method is one atomic step whose effect is the
 * matching function of module Catalog.
 */
module Manager {
  import opened Records
  import opened Lists
  import opened Catalog
  import Store

  class ClassManager {
    var students: map<string, StudentRecord>
    var teachers: map<string, TeacherRecord>
    var courses: map<string, CourseRecord>

    /** The three collections as one value. */
    function Tables(): Db
      reads this
    {
      Db(students, teachers, courses)
    }

    ghost predicate Valid()
      reads this
    {
      Consistent(Tables())
    }

    /** A manager over three empty collections. */
    constructor ()
      ensures Valid()
      ensures Tables() == EmptyDb()
    {
      students, teachers, courses := map[], map[], map[];
      EmptyDbConsistent();
    }

    method CreateStudent(student: Student) returns (ok: bool, message: string)
      requires Valid()
      modifies this
      ensures Valid()
      ensures Effect(Tables(), Reply(ok, message)) == Catalog.CreateStudent(old(Tables()), student)
    {
      if student.personId in students {
        return false, "Student ID already exists";
      }
      CreateStudentKeepsConsistent(Tables(), student);
      students := students[student.personId := StudentToDict(student)];
      return true, "Student created";
    }

    /** `read_students`: every stored student document exactly once; nothing changes. */
    method ReadStudents() returns (docs: seq<StudentRecord>)
      requires Valid()
      ensures |docs| == |students|
      ensures forall k :: k in students ==> students[k] in docs
      ensures forall i :: 0 <= i < |docs| ==> docs[i].studentId in students && students[docs[i].studentId] == docs[i]
      ensures forall i, j :: 0 <= i < j < |docs| ==> docs[i].studentId != docs[j].studentId
    {
      var keys;
      docs, keys := Store.ListAll(students);
      assert forall i :: 0 <= i < |docs| ==> docs[i].studentId == keys[i];
      forall k | k in students ensures students[k] in docs {
        var i :| 0 <= i < |keys| && keys[i] == k;
        assert docs[i] == students[k];
      }
    }

    method CreateTeacher(teacher: Teacher) returns (ok: bool, message: string)
      requires Valid()
      modifies this
      ensures Valid()
      ensures Effect(Tables(), Reply(ok, message)) == Catalog.CreateTeacher(old(Tables()), teacher)
    {
      if teacher.personId in teachers {
        return false, "Teacher ID already exists";
      }
      CreateTeacherKeepsConsistent(Tables(), teacher);
      teachers := teachers[teacher.personId := TeacherToDict(teacher)];
      return true, "Teacher created";
    }

    /** `read_teachers`: every stored teacher document exactly once; nothing changes. */
    method ReadTeachers() returns (docs: seq<TeacherRecord>)
      requires Valid()
      ensures |docs| == |teachers|
      ensures forall k :: k in teachers ==> teachers[k] in docs
      ensures forall i :: 0 <= i < |docs| ==> docs[i].teacherId in teachers && teachers[docs[i].teacherId] == docs[i]
      ensures forall i, j :: 0 <= i < j < |docs| ==> docs[i].teacherId != docs[j].teacherId
    {
      var keys;
      docs, keys := Store.ListAll(teachers);
      assert forall i :: 0 <= i < |docs| ==> docs[i].teacherId == keys[i];
      forall k | k in teachers ensures teachers[k] in docs {
        var i :| 0 <= i < |keys| && keys[i] == k;
        assert docs[i] == teachers[k];
      }
    }

    method CreateCourse(course: Course) returns (ok: bool, message: string)
      requires Valid()
      modifies this
      ensures Valid()
      ensures Effect(Tables(), Reply(ok, message)) == Catalog.CreateCourse(old(Tables()), course)
    {
      if course.code in courses {
        return false, "Course code already exists";
      }
      CreateCourseKeepsConsistent(Tables(), course);
      courses := courses[course.code := CourseToDict(course)];
      return true, "Course created";
    }

    /** `read_courses`: every stored course document exactly once; nothing changes. */
    method ReadCourses() returns (docs: seq<CourseRecord>)
      requires Valid()
      ensures |docs| == |courses|
      ensures forall k :: k in courses ==> courses[k] in docs
      ensures forall i :: 0 <= i < |docs| ==> docs[i].courseCode in courses && courses[docs[i].courseCode] == docs[i]
      ensures forall i, j :: 0 <= i < j < |docs| ==> docs[i].courseCode != docs[j].courseCode
    {
      var keys;
      docs, keys := Store.ListAll(courses);
      assert forall i :: 0 <= i < |docs| ==> docs[i].courseCode == keys[i];
      forall k | k in courses ensures courses[k] in docs {
        var i :| 0 <= i < |keys| && keys[i] == k;
        assert docs[i] == courses[k];
      }
    }

    method AssignTeacher(teacherId: string, courseCode: string) returns (ok: bool, message: string)
      requires Valid()
      modifies this
      ensures Valid()
      ensures Effect(Tables(), Reply(ok, message)) == Catalog.AssignTeacher(old(Tables()), teacherId, courseCode)
    {
      if teacherId !in teachers || courseCode !in courses {
        return false, "Teacher or course not found";
      }
      AssignTeacherKeepsConsistent(Tables(), teacherId, courseCode);
      ghost var target := Catalog.AssignTeacher(Tables(), teacherId, courseCode).after;
      var t := teachers[teacherId];
      var c := courses[courseCode];
      courses := courses[courseCode := c.(teacherId := Some(teacherId))];
      assert courses == target.courses;
      if courseCode !in t.courses {
        teachers := teachers[teacherId := t.(courses := t.courses + [courseCode])];
      }
      assert teachers == target.teachers;
      return true, "Teacher assigned";
    }

    method EnrollStudent(studentId: string, courseCode: string) returns (ok: bool, message: string)
      requires Valid()
      modifies this
      ensures Valid()
      ensures Effect(Tables(), Reply(ok, message)) == Catalog.EnrollStudent(old(Tables()), studentId, courseCode)
    {
      if studentId !in students || courseCode !in courses {
        return false, "Student or course not found";
      }
      EnrollStudentKeepsConsistent(Tables(), studentId, courseCode);
      ghost var target := Catalog.EnrollStudent(Tables(), studentId, courseCode).after;
      var s := students[studentId];
      var c := courses[courseCode];
      if studentId !in c.students {
        courses := courses[courseCode := c.(students := c.students + [studentId])];
      }
      assert courses == target.courses;
      if courseCode !in s.enrollments {
        students := students[studentId := s.(enrollments := s.enrollments + [courseCode])];
      }
      assert students == target.students;
      return true, "Student enrolled";
    }
  }
}
