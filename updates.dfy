/**
 * `save()` of a new row (the counter's value becomes its primary key) and of
 * an edited row (only that row's fields change), with the constraints each
 * keeps.  The handlers' uniqueness pre-checks are shown to be exactly the
 * conditions under which a save keeps the unique constraints.
 */
module Updates {
  import opened Wrappers
  import opened Schema

  function InsertStudent(t: Tables, s: Student): Tables {
    t.(students := t.students[t.nextId := s], nextId := t.nextId + 1)
  }

  function UpdateStudent(t: Tables, id: Id, s: Student): Tables {
    t.(students := t.students[id := s])
  }

  function InsertInstructor(t: Tables, i: Instructor): Tables {
    t.(instructors := t.instructors[t.nextId := i], nextId := t.nextId + 1)
  }

  function UpdateInstructor(t: Tables, id: Id, i: Instructor): Tables {
    t.(instructors := t.instructors[id := i])
  }

  function InsertCourse(t: Tables, c: Course): Tables {
    t.(courses := t.courses[t.nextId := c], nextId := t.nextId + 1)
  }

  function UpdateCourse(t: Tables, id: Id, c: Course): Tables {
    t.(courses := t.courses[id := c])
  }

  function InsertEnrollment(t: Tables, e: Enrollment): Tables {
    t.(enrollments := t.enrollments[t.nextId := e], nextId := t.nextId + 1)
  }

  function UpdateEnrollment(t: Tables, id: Id, e: Enrollment): Tables {
    t.(enrollments := t.enrollments[id := e])
  }

  // ---------------------------------------------------------------- the pre-checks are exact

  /** A new student keeps emails unique exactly when no student holds its email. */
  lemma InsertStudentUniqueIff(t: Tables, s: Student)
    requires UniqueStudentEmails(t.students) && Fresh(t)
    ensures UniqueStudentEmails(InsertStudent(t, s).students) <==> !StudentEmailTaken(t, s.email, None)
  {
    var r := InsertStudent(t, s);
    if StudentEmailTaken(t, s.email, None) {
      var other :| other in t.students && t.students[other].email == s.email;
      assert r.students[other].email == r.students[t.nextId].email && other != t.nextId;
    }
  }

  /** An edited student keeps emails unique exactly when no OTHER student holds the new email. */
  lemma UpdateStudentUniqueIff(t: Tables, id: Id, s: Student)
    requires UniqueStudentEmails(t.students) && id in t.students
    ensures UniqueStudentEmails(UpdateStudent(t, id, s).students) <==> !StudentEmailTaken(t, s.email, Some(id))
  {
    var r := UpdateStudent(t, id, s);
    if StudentEmailTaken(t, s.email, Some(id)) {
      var other :| other in t.students && t.students[other].email == s.email && other != id;
      assert r.students[other].email == r.students[id].email;
    }
  }

  lemma InsertInstructorUniqueIff(t: Tables, i: Instructor)
    requires UniqueInstructorEmails(t.instructors) && Fresh(t)
    ensures UniqueInstructorEmails(InsertInstructor(t, i).instructors) <==> !InstructorEmailTaken(t, i.email, None)
  {
    var r := InsertInstructor(t, i);
    if InstructorEmailTaken(t, i.email, None) {
      var other :| other in t.instructors && t.instructors[other].email == i.email;
      assert r.instructors[other].email == r.instructors[t.nextId].email && other != t.nextId;
    }
  }

  lemma UpdateInstructorUniqueIff(t: Tables, id: Id, i: Instructor)
    requires UniqueInstructorEmails(t.instructors) && id in t.instructors
    ensures UniqueInstructorEmails(UpdateInstructor(t, id, i).instructors) <==> !InstructorEmailTaken(t, i.email, Some(id))
  {
    var r := UpdateInstructor(t, id, i);
    if InstructorEmailTaken(t, i.email, Some(id)) {
      var other :| other in t.instructors && t.instructors[other].email == i.email && other != id;
      assert r.instructors[other].email == r.instructors[id].email;
    }
  }

  lemma InsertCourseUniqueIff(t: Tables, c: Course)
    requires UniqueCodes(t.courses) && Fresh(t)
    ensures UniqueCodes(InsertCourse(t, c).courses) <==> !CodeInUse(t, c.code, None)
  {
    var r := InsertCourse(t, c);
    if CodeInUse(t, c.code, None) {
      var other :| other in t.courses && t.courses[other].code == c.code;
      assert r.courses[other].code == r.courses[t.nextId].code && other != t.nextId;
    }
  }

  lemma UpdateCourseUniqueIff(t: Tables, id: Id, c: Course)
    requires UniqueCodes(t.courses) && id in t.courses
    ensures UniqueCodes(UpdateCourse(t, id, c).courses) <==> !CodeInUse(t, c.code, Some(id))
  {
    var r := UpdateCourse(t, id, c);
    if CodeInUse(t, c.code, Some(id)) {
      var other :| other in t.courses && t.courses[other].code == c.code && other != id;
      assert r.courses[other].code == r.courses[id].code;
    }
  }

  /** A new enrollment keeps `unique_together` exactly when the pair is not enrolled yet. */
  lemma InsertEnrollmentUniqueIff(t: Tables, e: Enrollment)
    requires UniquePairs(t.enrollments) && Fresh(t)
    ensures UniquePairs(InsertEnrollment(t, e).enrollments) <==> !Enrolled(t, e.student, e.course, None)
  {
    var r := InsertEnrollment(t, e);
    if Enrolled(t, e.student, e.course, None) {
      var other :| other in t.enrollments && t.enrollments[other].student == e.student
                   && t.enrollments[other].course == e.course;
      assert r.enrollments[other] == t.enrollments[other] && other != t.nextId;
      assert r.enrollments[t.nextId] == e;
    }
  }

  lemma UpdateEnrollmentUniqueIff(t: Tables, id: Id, e: Enrollment)
    requires UniquePairs(t.enrollments) && id in t.enrollments
    ensures UniquePairs(UpdateEnrollment(t, id, e).enrollments) <==> !Enrolled(t, e.student, e.course, Some(id))
  {
    var r := UpdateEnrollment(t, id, e);
    if Enrolled(t, e.student, e.course, Some(id)) {
      var other :| other in t.enrollments && t.enrollments[other].student == e.student
                   && t.enrollments[other].course == e.course && other != id;
      assert r.enrollments[other] == t.enrollments[other];
      assert r.enrollments[id] == e;
    }
  }

  // ---------------------------------------------------------------- whole constraints

  lemma InsertStudentConsistent(t: Tables, s: Student, isEmail: string -> bool, isDate: string -> bool)
    requires Consistent(t, isEmail, isDate) && StudentValid(s, isEmail, isDate)
    requires !StudentEmailTaken(t, s.email, None)
    ensures Consistent(InsertStudent(t, s), isEmail, isDate)
    ensures OwnerExists(InsertStudent(t, s), OfStudent(t.nextId))
  {
    InsertStudentUniqueIff(t, s);
    RefsGrow(t, InsertStudent(t, s));
  }

  lemma UpdateStudentConsistent(t: Tables, id: Id, s: Student, isEmail: string -> bool, isDate: string -> bool)
    requires Consistent(t, isEmail, isDate) && id in t.students && StudentValid(s, isEmail, isDate)
    requires !StudentEmailTaken(t, s.email, Some(id))
    ensures Consistent(UpdateStudent(t, id, s), isEmail, isDate)
  {
    UpdateStudentUniqueIff(t, id, s);
    RefsGrow(t, UpdateStudent(t, id, s));
  }

  lemma InsertInstructorConsistent(t: Tables, i: Instructor, isEmail: string -> bool, isDate: string -> bool)
    requires Consistent(t, isEmail, isDate) && InstructorValid(i, isEmail)
    requires !InstructorEmailTaken(t, i.email, None)
    ensures Consistent(InsertInstructor(t, i), isEmail, isDate)
    ensures OwnerExists(InsertInstructor(t, i), OfInstructor(t.nextId))
  {
    InsertInstructorUniqueIff(t, i);
    RefsGrow(t, InsertInstructor(t, i));
  }

  lemma UpdateInstructorConsistent(t: Tables, id: Id, i: Instructor, isEmail: string -> bool, isDate: string -> bool)
    requires Consistent(t, isEmail, isDate) && id in t.instructors && InstructorValid(i, isEmail)
    requires !InstructorEmailTaken(t, i.email, Some(id))
    ensures Consistent(UpdateInstructor(t, id, i), isEmail, isDate)
  {
    UpdateInstructorUniqueIff(t, id, i);
    RefsGrow(t, UpdateInstructor(t, id, i));
  }

  lemma InsertCourseConsistent(t: Tables, c: Course, isEmail: string -> bool, isDate: string -> bool)
    requires Consistent(t, isEmail, isDate) && CourseValid(c) && !CodeInUse(t, c.code, None)
    ensures Consistent(InsertCourse(t, c), isEmail, isDate)
    ensures OwnerExists(InsertCourse(t, c), OfCourse(t.nextId))
  {
    InsertCourseUniqueIff(t, c);
    RefsGrow(t, InsertCourse(t, c));
  }

  lemma UpdateCourseConsistent(t: Tables, id: Id, c: Course, isEmail: string -> bool, isDate: string -> bool)
    requires Consistent(t, isEmail, isDate) && id in t.courses && CourseValid(c)
    requires !CodeInUse(t, c.code, Some(id))
    ensures Consistent(UpdateCourse(t, id, c), isEmail, isDate)
  {
    UpdateCourseUniqueIff(t, id, c);
    RefsGrow(t, UpdateCourse(t, id, c));
  }

  lemma InsertEnrollmentConsistent(t: Tables, e: Enrollment, isEmail: string -> bool, isDate: string -> bool)
    requires Consistent(t, isEmail, isDate) && e.student in t.students && e.course in t.courses
    requires ScoreInRange(e.score) && !Enrolled(t, e.student, e.course, None)
    ensures Consistent(InsertEnrollment(t, e), isEmail, isDate)
    ensures OwnerExists(InsertEnrollment(t, e), OfEnrollment(t.nextId))
  {
    var r := InsertEnrollment(t, e);
    InsertEnrollmentUniqueIff(t, e);
    EnrollmentRefs(t, r);
  }

  lemma UpdateEnrollmentConsistent(t: Tables, id: Id, e: Enrollment, isEmail: string -> bool, isDate: string -> bool)
    requires Consistent(t, isEmail, isDate) && id in t.enrollments
    requires e.student in t.students && e.course in t.courses
    requires ScoreInRange(e.score) && !Enrolled(t, e.student, e.course, Some(id))
    ensures Consistent(UpdateEnrollment(t, id, e), isEmail, isDate)
  {
    var r := UpdateEnrollment(t, id, e);
    UpdateEnrollmentUniqueIff(t, id, e);
    EnrollmentRefs(t, r);
  }

  /** A saved enrollment whose two keys exist keeps every reference valid. */
  lemma EnrollmentRefs(t: Tables, r: Tables)
    requires Referential(t) && Fresh(t)
    requires r == t.(enrollments := r.enrollments, nextId := r.nextId)
    requires t.enrollments.Keys <= r.enrollments.Keys && t.nextId <= r.nextId
    requires forall id :: id in r.enrollments ==>
               (id in t.enrollments && r.enrollments[id] == t.enrollments[id])
               || (id < r.nextId && r.enrollments[id].student in t.students
                   && r.enrollments[id].course in t.courses)
    ensures Referential(r) && Fresh(r)
  {
    RefsGrow(t, r);
  }

  /** A save that keeps every key keeps every reference valid; a new key is below the new counter. */
  lemma RefsGrow(t: Tables, r: Tables)
    requires Referential(t) && Fresh(t)
    requires t.students.Keys <= r.students.Keys && t.courses.Keys <= r.courses.Keys
    requires t.instructors.Keys <= r.instructors.Keys && t.enrollments.Keys <= r.enrollments.Keys
    requires r.metadata == t.metadata && r.tags == t.tags && r.teaches == t.teaches
    requires forall id :: id in r.enrollments ==>
               r.enrollments[id].student in r.students && r.enrollments[id].course in r.courses
    requires t.nextId <= r.nextId
    requires forall id :: id in r.students && id !in t.students ==> id < r.nextId
    requires forall id :: id in r.courses && id !in t.courses ==> id < r.nextId
    requires forall id :: id in r.instructors && id !in t.instructors ==> id < r.nextId
    requires forall id :: id in r.enrollments && id !in t.enrollments ==> id < r.nextId
    ensures Referential(r) && Fresh(r)
  {
    forall x | x in r.tags ensures OwnerExists(r, x.0) {
      assert OwnerExists(t, x.0);
    }
  }

  /** Editing a student touches no enrollment, no metadata link and no other student. */
  lemma UpdateStudentKeepsLinks(t: Tables, id: Id, s: Student)
    ensures var r := UpdateStudent(t, id, s);
            r.enrollments == t.enrollments && r.tags == t.tags && r.metadata == t.metadata
            && r.students.Keys == t.students.Keys + {id}
            && (forall other :: other in t.students && other != id ==> r.students[other] == t.students[other])
  {
  }
}
