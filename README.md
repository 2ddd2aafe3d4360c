# Class manager: a Dafny model of the ClassManager controller

The class manager keeps three collections in a document store: `students`,
`teachers` and `courses`. Each is keyed by a natural key (`student_id`,
`teacher_id`, `course_code`). The `ClassManager` controller creates records
from `Student`, `Teacher` and `Course` entities through their `to_dict`
conversion. It lists each collection, assigns a teacher to a course, and
enrolls a student in a course. The last two keep relationship lists on both
documents by appending to a list only when the element is absent.

This project models that controller and the record shapes it stores:

- `records.dfy` (module `Records`): the entities as their constructors build
  them, the stored documents, the three `to_dict` conversions and their
  inverses.
- `lists.dfy` (module `Lists`): duplicate-free lists and the guarded append
  (`if x not in list: $push x`).
- `catalog.dfy` (module `Catalog`): the three collections as one value `Db`
  (maps from natural key to document) and the invariant `Consistent`:
  - every document sits under its own key;
  - no relationship list has duplicates;
  - no reference dangles;
  - a student lists a course exactly when the course lists the student;
  - the teacher a course points to lists that course.

  The module also holds one function per controller operation, giving the
  state after and the `(success, message)` reply, with lemmas about them:
  invariant preservation, idempotence, the reassignment asymmetry, and a
  concrete enrollment scenario.
- `store.dfy` (module `Store`): listing a whole collection, every document
  once.
- `manager.dfy` (module `Manager`): class `ClassManager`. It holds the three
  collections as map fields that its methods update in place. Each method is
  proved to produce exactly the effect of the matching `Catalog` function and
  to keep `Consistent`.

The entity constructors set `enrollments`/`courses` to an empty list and
`teacher_id` to `None`. Nothing changes those attributes on the entity
objects afterwards. So the entity datatypes carry only the constructor
arguments, and the `to_dict` functions write the empty list or `None`.

## Model

| member | source | states |
|---|---|---|
| Records.StudentToDict | app.py:53-66 | the document keys the student by its person id, starts with no enrollments, and gives back the student (`StudentOf`) |
| Records.TeacherToDict | app.py:68-81 | the document keys the teacher by its person id, starts with no courses, and gives back the teacher |
| Records.CourseToDict | app.py:83-98 | the document keys the course by its code, has no teacher and no students, and gives back the course |
| Records.StudentToDictImage | app.py:57-66 | a student document is what `to_dict` produces exactly when its enrollment list is empty |
| Records.TeacherToDictImage | app.py:72-81 | a teacher document is what `to_dict` produces exactly when its course list is empty |
| Records.CourseToDictImage | app.py:88-98 | a course document is what `to_dict` produces exactly when it has no teacher and no students |
| Records.StudentToDictInjective | app.py:59-66 | two students have the same document if and only if they are equal |
| Lists.AppendIfAbsent | app.py:146-147 | the guarded push: the element is present afterwards, membership grows by that element only, the old list is a prefix, at most one element is added, the list is unchanged exactly when the element was there, no duplicate is introduced |
| Lists.AppendIfAbsentIdempotent | app.py:155-158 | a second guarded push of the same element changes nothing |
| Lists.NoDupCount | app.py:155-158 | in a duplicate-free list an element occurs at most once |
| Catalog.EmptyDbConsistent | app.py:104-107 | three empty collections satisfy the invariant |
| Catalog.CreateStudent | app.py:110-114 | fails with "Student ID already exists" and no change exactly when the id is taken; otherwise replies "Student created", inserts exactly `to_dict` of the student under its id and changes no other record |
| Catalog.CreateTeacher | app.py:120-124 | fails with "Teacher ID already exists" and no change exactly when the id is taken; otherwise replies "Teacher created", inserts exactly `to_dict` of the teacher and changes nothing else |
| Catalog.CreateCourse | app.py:130-134 | fails with "Course code already exists" and no change exactly when the code is taken; otherwise replies "Course created", inserts exactly `to_dict` of the course and changes nothing else |
| Catalog.AssignTeacher | app.py:140-148 | fails with "Teacher or course not found" and no change exactly when either is missing; otherwise sets the course's teacher, appends the course to that teacher's list only if absent, and leaves every other record, including any previous teacher, untouched |
| Catalog.EnrollStudent | app.py:150-159 | fails with "Student or course not found" and no change exactly when either is missing; otherwise both sides hold the link, each list gains at most that one element at its end, and every other record is untouched |
| Catalog.CreateStudentKeepsConsistent | app.py:110-114 | creating a student keeps the invariant |
| Catalog.CreateTeacherKeepsConsistent | app.py:120-124 | creating a teacher keeps the invariant |
| Catalog.CreateCourseKeepsConsistent | app.py:130-134 | creating a course keeps the invariant |
| Catalog.AssignTeacherKeepsConsistent | app.py:140-148 | assigning keeps the invariant: no duplicate in the teacher's list, the new teacher lists the course |
| Catalog.EnrollStudentKeepsConsistent | app.py:150-159 | enrolling keeps the invariant, including that the two lists agree |
| Catalog.AssignTeacherIdempotent | app.py:140-148 | assigning twice gives the same state and reply as assigning once |
| Catalog.EnrollStudentIdempotent | app.py:150-159 | enrolling twice gives the same state and reply as enrolling once |
| Catalog.ReassignKeepsPreviousTeacherList | app.py:145-148 | after assigning teacher t1 and then t2, the course points to t2 but t1 still lists the course |
| Catalog.EnrollLinksBothOrNeither | app.py:155-158 | under the invariant an enroll either changes nothing (already linked) or appends to both lists |
| Catalog.EnrolledExactlyOnce | app.py:155-158 | after an enroll the course lists the student exactly once and the student lists the course exactly once |
| Catalog.EnrollScenario | app.py:150-159 | creating S1 and MATH101 and enrolling the one in the other gives `["MATH101"]` and `["S1"]` |
| Store.ListAll | app.py:117 | lists every stored document exactly once, each with the key it is stored under |
| Manager.ClassManager.constructor | app.py:104-107 | a manager over three empty collections satisfies the invariant |
| Manager.ClassManager.CreateStudent | app.py:110-114 | the new collections and the reply are those of `Catalog.CreateStudent`; the invariant is kept |
| Manager.ClassManager.ReadStudents | app.py:116-117 | returns every stored student document once, with distinct ids, changing nothing |
| Manager.ClassManager.CreateTeacher | app.py:120-124 | the new collections and the reply are those of `Catalog.CreateTeacher`; the invariant is kept |
| Manager.ClassManager.ReadTeachers | app.py:126-127 | returns every stored teacher document once, with distinct ids, changing nothing |
| Manager.ClassManager.CreateCourse | app.py:130-134 | the new collections and the reply are those of `Catalog.CreateCourse`; the invariant is kept |
| Manager.ClassManager.ReadCourses | app.py:136-137 | returns every stored course document once, with distinct codes, changing nothing |
| Manager.ClassManager.AssignTeacher | app.py:140-148 | the guarded in-place updates give the collections and reply of `Catalog.AssignTeacher`; the invariant is kept |
| Manager.ClassManager.EnrollStudent | app.py:150-159 | the two guarded in-place appends give the collections and reply of `Catalog.EnrollStudent`; the invariant is kept |

## Left out

- The web-form user interface (app.py:166-263): presentation only. It calls the controller and displays its replies.
- Configuration and connection (app.py:11-38): reading the environment file, the `classmanager` default database name, connecting, the ping, and the connection-failure message. These are I/O and a foreign client library.
- The store's internal `_id` field and the projection that removes it: documents are modelled without it, so `read_*` returns the stored documents as they are.
- The order of `read_*` results: the store does not promise one. `Store.ListAll` returns some order, and the model says nothing about which.
- `.get(..., [])` defaults (app.py:146, 155, 157): every stored document comes from `to_dict`, which always writes the list fields, so the default never applies in the model.
- Concurrency: each controller method is one atomic step. The check-then-insert gap and the two unsynchronised writes in assign and enroll are not modelled.
- Update, delete and cascading clean-up of back-references: the system's design description names them, but the controller code (app.py:103-159) has none of them. The model follows the code and leaves them out.
- The abstract base class `Person`: it only shares the person id, name and email fields, which each entity datatype carries directly.
- Manager.ClassManager.constructor: starts from empty collections. A database already holding documents is covered only as a state reached by the controller's own operations. Documents inserted by other means, such as two documents with the same key, are not modelled.
