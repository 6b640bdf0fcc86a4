/**
 * `delete()` on each model.  Enrollment's two foreign keys are
 * `on_delete=CASCADE`, so deleting a student or a course deletes the
 * enrollments that reference it; deleting any row also deletes its rows in the
 * link tables (its metadata links, an instructor's or a course's teaching
 * links), while the Metadata rows and the rows at the other end stay.
 */
module Deletion {
  import opened Schema

  /** The link rows whose owner is in `gone` disappear with it. */
  function WithoutOwners(tags: set<(Owner, Id)>, gone: set<Owner>): set<(Owner, Id)> {
    set x | x in tags && x.0 !in gone
  }

  /** The enrollments of student `s`. */
  function EnrollmentsOfStudent(t: Tables, s: Id): set<Id> {
    set e | e in t.enrollments && t.enrollments[e].student == s
  }

  /** The enrollments in course `c`. */
  function EnrollmentsOfCourse(t: Tables, c: Id): set<Id> {
    set e | e in t.enrollments && t.enrollments[e].course == c
  }

  function AsOwners(es: set<Id>): set<Owner> {
    set e | e in es :: OfEnrollment(e)
  }

  /** `student.delete()`: the student, its enrollments, and the links of both. */
  function RemoveStudent(t: Tables, s: Id): Tables {
    var gone := EnrollmentsOfStudent(t, s);
    t.(students := t.students - {s},
       enrollments := t.enrollments - gone,
       tags := WithoutOwners(t.tags, {OfStudent(s)} + AsOwners(gone)))
  }

  /** `course.delete()`: the course, its enrollments, its teaching links, and their metadata links. */
  function RemoveCourse(t: Tables, c: Id): Tables {
    var gone := EnrollmentsOfCourse(t, c);
    t.(courses := t.courses - {c},
       enrollments := t.enrollments - gone,
       teaches := (set x | x in t.teaches && x.1 != c),
       tags := WithoutOwners(t.tags, {OfCourse(c)} + AsOwners(gone)))
  }

  /** `instructor.delete()`: the instructor and its links; no course goes. */
  function RemoveInstructor(t: Tables, i: Id): Tables {
    t.(instructors := t.instructors - {i},
       teaches := (set x | x in t.teaches && x.0 != i),
       tags := WithoutOwners(t.tags, {OfInstructor(i)}))
  }

  /** `enrollment.delete()`: the enrollment and its metadata links. */
  function RemoveEnrollment(t: Tables, e: Id): Tables {
    t.(enrollments := t.enrollments - {e},
       tags := WithoutOwners(t.tags, {OfEnrollment(e)}))
  }

  // ---------------------------------------------------------------- cascades

  /**
   * Deleting a student removes exactly the enrollments that reference it; every
   * other enrollment is kept as it was, and so are the other rows and the
   * metadata links of every surviving owner.
   */
  lemma RemoveStudentCascade(t: Tables, s: Id)
    ensures var r := RemoveStudent(t, s);
            (forall e :: e in r.enrollments <==> e in t.enrollments && t.enrollments[e].student != s)
            && (forall e :: e in r.enrollments ==> r.enrollments[e] == t.enrollments[e])
            && r.students == t.students - {s}
            && r.courses == t.courses && r.instructors == t.instructors
            && r.metadata == t.metadata && r.teaches == t.teaches
            && (forall x :: x in r.tags <==>
                  x in t.tags && x.0 != OfStudent(s)
                  && !(x.0.OfEnrollment? && x.0.id in t.enrollments && t.enrollments[x.0.id].student == s))
  {
  }

  /**
   * Deleting a course removes exactly its enrollments and teaching links; the
   * other rows and the metadata links of every surviving owner are kept.
   */
  lemma RemoveCourseCascade(t: Tables, c: Id)
    ensures var r := RemoveCourse(t, c);
            (forall e :: e in r.enrollments <==> e in t.enrollments && t.enrollments[e].course != c)
            && (forall e :: e in r.enrollments ==> r.enrollments[e] == t.enrollments[e])
            && (forall x :: x in r.teaches <==> x in t.teaches && x.1 != c)
            && r.courses == t.courses - {c}
            && r.students == t.students && r.instructors == t.instructors && r.metadata == t.metadata
            && (forall x :: x in r.tags <==>
                  x in t.tags && x.0 != OfCourse(c)
                  && !(x.0.OfEnrollment? && x.0.id in t.enrollments && t.enrollments[x.0.id].course == c))
  {
  }

  /** Deleting an instructor deletes no course and no other instructor's link. */
  lemma RemoveInstructorKeepsCourses(t: Tables, i: Id)
    ensures var r := RemoveInstructor(t, i);
            r.courses == t.courses && r.enrollments == t.enrollments && r.students == t.students
            && r.metadata == t.metadata
            && (forall x :: x in r.teaches <==> x in t.teaches && x.0 != i)
            && (forall x :: x in r.tags <==> x in t.tags && x.0 != OfInstructor(i))
  {
  }

  // ---------------------------------------------------------------- constraints

  /** Removing rows keeps the unique and validity constraints (they only speak of pairs of rows). */
  lemma SubsetConsistent(t: Tables, r: Tables, isEmail: string -> bool, isDate: string -> bool)
    requires Consistent(t, isEmail, isDate) && Referential(r)
    requires r.students.Keys <= t.students.Keys && r.courses.Keys <= t.courses.Keys
    requires r.instructors.Keys <= t.instructors.Keys && r.enrollments.Keys <= t.enrollments.Keys
    requires r.metadata == t.metadata && r.nextId == t.nextId
    requires forall id :: id in r.students ==> r.students[id] == t.students[id]
    requires forall id :: id in r.courses ==> r.courses[id] == t.courses[id]
    requires forall id :: id in r.instructors ==> r.instructors[id] == t.instructors[id]
    requires forall id :: id in r.enrollments ==> r.enrollments[id] == t.enrollments[id]
    ensures Consistent(r, isEmail, isDate)
  {
  }

  lemma RemoveStudentConsistent(t: Tables, s: Id, isEmail: string -> bool, isDate: string -> bool)
    requires Consistent(t, isEmail, isDate)
    ensures Consistent(RemoveStudent(t, s), isEmail, isDate)
  {
    RemoveStudentReferential(t, s);
    SubsetConsistent(t, RemoveStudent(t, s), isEmail, isDate);
  }

  /** No enrollment is left pointing at the deleted student, and no link at a deleted row. */
  lemma RemoveStudentReferential(t: Tables, s: Id)
    requires Referential(t)
    ensures Referential(RemoveStudent(t, s))
  {
    var r, gone := RemoveStudent(t, s), EnrollmentsOfStudent(t, s);
    forall x | x in r.tags ensures OwnerExists(r, x.0) {
      if x.0.OfEnrollment? {
        assert x.0.id !in gone by {
          assert x.0.id in gone ==> x.0 in AsOwners(gone);
        }
      }
    }
  }

  lemma RemoveCourseConsistent(t: Tables, c: Id, isEmail: string -> bool, isDate: string -> bool)
    requires Consistent(t, isEmail, isDate)
    ensures Consistent(RemoveCourse(t, c), isEmail, isDate)
  {
    RemoveCourseReferential(t, c);
    SubsetConsistent(t, RemoveCourse(t, c), isEmail, isDate);
  }

  /** No enrollment or teaching link is left pointing at the deleted course. */
  lemma RemoveCourseReferential(t: Tables, c: Id)
    requires Referential(t)
    ensures Referential(RemoveCourse(t, c))
  {
    var r, gone := RemoveCourse(t, c), EnrollmentsOfCourse(t, c);
    forall x | x in r.tags ensures OwnerExists(r, x.0) {
      if x.0.OfEnrollment? {
        assert x.0.id !in gone by {
          assert x.0.id in gone ==> x.0 in AsOwners(gone);
        }
      }
    }
  }

  lemma RemoveInstructorConsistent(t: Tables, i: Id, isEmail: string -> bool, isDate: string -> bool)
    requires Consistent(t, isEmail, isDate)
    ensures Consistent(RemoveInstructor(t, i), isEmail, isDate)
  {
    RemoveInstructorReferential(t, i);
    SubsetConsistent(t, RemoveInstructor(t, i), isEmail, isDate);
  }

  lemma RemoveInstructorReferential(t: Tables, i: Id)
    requires Referential(t)
    ensures Referential(RemoveInstructor(t, i))
  {
    var r := RemoveInstructor(t, i);
    forall x | x in r.tags ensures OwnerExists(r, x.0) {
      assert OwnerExists(t, x.0);
    }
  }

  lemma RemoveEnrollmentConsistent(t: Tables, e: Id, isEmail: string -> bool, isDate: string -> bool)
    requires Consistent(t, isEmail, isDate)
    ensures Consistent(RemoveEnrollment(t, e), isEmail, isDate)
  {
    RemoveEnrollmentReferential(t, e);
    SubsetConsistent(t, RemoveEnrollment(t, e), isEmail, isDate);
  }

  lemma RemoveEnrollmentReferential(t: Tables, e: Id)
    requires Referential(t)
    ensures Referential(RemoveEnrollment(t, e))
  {
    var r := RemoveEnrollment(t, e);
    forall x | x in r.tags ensures OwnerExists(r, x.0) {
      assert OwnerExists(t, x.0);
    }
  }
}
