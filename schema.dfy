/**
 * The tables of student/models.py as one value: a map per model keyed by
 * primary key, the metadata link tables of the four `metadata` many-to-many
 * fields, the instructor/course link table, and the id counter.  `Consistent`
 * gathers every constraint the models declare.
 */
module Schema {
  import opened Wrappers
  import opened Fields
  import MetadataText

  type Id = nat

  /** The `dob` is kept as submitted; the date parser is the parameter `isDate`. */
  datatype Student = Student(firstName: string, lastName: string, email: string, dob: string)

  datatype Course = Course(name: string, code: string, description: string)

  datatype Instructor = Instructor(firstName: string, lastName: string, email: string)

  /** The score is in hundredths; `None` is a NULL score. */
  datatype Enrollment = Enrollment(student: Id, course: Id, score: Option<nat>)

  /** The row that holds a `metadata` link: one of the four models that declare the field. */
  datatype Owner = OfStudent(id: Id) | OfCourse(id: Id) | OfInstructor(id: Id) | OfEnrollment(id: Id)

  /**
   * `tags` holds the rows of the four metadata link tables as (owner, metadata
   * id); `teaches` the rows of `Instructor.courses` as (instructor id, course id).
   */
  datatype Tables = Tables(
    students: map<Id, Student>,
    courses: map<Id, Course>,
    instructors: map<Id, Instructor>,
    enrollments: map<Id, Enrollment>,
    metadata: map<Id, MetadataText.Pair>,
    tags: set<(Owner, Id)>,
    teaches: set<(Id, Id)>,
    nextId: Id)

  const Empty: Tables := Tables(map[], map[], map[], map[], map[], {}, {}, 1)

  // ---------------------------------------------------------------- field rules

  predicate StudentValid(s: Student, isEmail: string -> bool, isDate: string -> bool) {
    ValidText(s.firstName, NameMaxLength) && ValidText(s.lastName, NameMaxLength)
    && ValidEmail(s.email, isEmail) && isDate(s.dob)
  }

  predicate InstructorValid(i: Instructor, isEmail: string -> bool) {
    ValidText(i.firstName, NameMaxLength) && ValidText(i.lastName, NameMaxLength)
    && ValidEmail(i.email, isEmail)
  }

  /** The description is a `TextField(blank=True)`: anything goes. */
  predicate CourseValid(c: Course) {
    ValidText(c.name, CourseNameMaxLength) && ValidCourseCode(c.code)
  }

  predicate ScoreInRange(score: Option<nat>) {
    score.None? || score.value <= 10000
  }

  // ---------------------------------------------------------------- constraints
  // Each constraint is stated over the tables it reads, so a save that leaves
  // those tables alone visibly keeps it.

  predicate StudentsValid(students: map<Id, Student>, isEmail: string -> bool, isDate: string -> bool) {
    forall id :: id in students ==> StudentValid(students[id], isEmail, isDate)
  }

  predicate InstructorsValid(instructors: map<Id, Instructor>, isEmail: string -> bool) {
    forall id :: id in instructors ==> InstructorValid(instructors[id], isEmail)
  }

  predicate CoursesValid(courses: map<Id, Course>) {
    forall id :: id in courses ==> CourseValid(courses[id])
  }

  predicate ScoresInRange(enrollments: map<Id, Enrollment>) {
    forall id :: id in enrollments ==> ScoreInRange(enrollments[id].score)
  }

  /** `full_clean` passed for every stored row. */
  predicate RowsValid(t: Tables, isEmail: string -> bool, isDate: string -> bool) {
    StudentsValid(t.students, isEmail, isDate) && InstructorsValid(t.instructors, isEmail)
    && CoursesValid(t.courses) && ScoresInRange(t.enrollments)
  }

  /** `unique=True` on both emails and on the code, `unique_together` on enrollments. */
  predicate UniqueStudentEmails(students: map<Id, Student>) {
    forall a, b :: a in students && b in students && students[a].email == students[b].email ==> a == b
  }

  predicate UniqueInstructorEmails(instructors: map<Id, Instructor>) {
    forall a, b :: a in instructors && b in instructors && instructors[a].email == instructors[b].email ==> a == b
  }

  predicate UniqueCodes(courses: map<Id, Course>) {
    forall a, b :: a in courses && b in courses && courses[a].code == courses[b].code ==> a == b
  }

  predicate UniquePairs(enrollments: map<Id, Enrollment>) {
    forall a, b ::
      (a in enrollments && b in enrollments
       && enrollments[a].student == enrollments[b].student
       && enrollments[a].course == enrollments[b].course)
      ==> a == b
  }

  /**
   * The model declares no constraint on Metadata, but every row is made by
   * `get_or_create`, so no two rows hold the same pair.
   */
  predicate UniqueRows(metadata: map<Id, MetadataText.Pair>) {
    forall a, b :: a in metadata && b in metadata && metadata[a] == metadata[b] ==> a == b
  }

  predicate OwnerExists(t: Tables, o: Owner) {
    match o
    case OfStudent(id) => id in t.students
    case OfCourse(id) => id in t.courses
    case OfInstructor(id) => id in t.instructors
    case OfEnrollment(id) => id in t.enrollments
  }

  /** Both foreign keys of every enrollment point at existing rows. */
  predicate EnrollmentKeys(enrollments: map<Id, Enrollment>, students: map<Id, Student>, courses: map<Id, Course>) {
    forall id :: id in enrollments ==> enrollments[id].student in students && enrollments[id].course in courses
  }

  /** Every metadata link joins an existing row to an existing Metadata row. */
  predicate TagsExist(t: Tables) {
    forall x :: x in t.tags ==> OwnerExists(t, x.0) && x.1 in t.metadata
  }

  /** Every teaching link joins an existing instructor to an existing course. */
  predicate TeachKeys(teaches: set<(Id, Id)>, instructors: map<Id, Instructor>, courses: map<Id, Course>) {
    forall x :: x in teaches ==> x.0 in instructors && x.1 in courses
  }

  /** Foreign keys and link rows point at rows that exist. */
  predicate Referential(t: Tables) {
    EnrollmentKeys(t.enrollments, t.students, t.courses) && TagsExist(t)
    && TeachKeys(t.teaches, t.instructors, t.courses)
  }

  /** Metadata ids are below the counter, so `get_or_create` can use the counter's value. */
  predicate RowsFresh(t: Tables) {
    forall id :: id in t.metadata ==> id < t.nextId
  }

  /** Every id in use is below the counter, so the counter's value is a fresh key. */
  predicate Fresh(t: Tables) {
    (forall id :: id in t.students ==> id < t.nextId)
    && (forall id :: id in t.courses ==> id < t.nextId)
    && (forall id :: id in t.instructors ==> id < t.nextId)
    && (forall id :: id in t.enrollments ==> id < t.nextId)
    && RowsFresh(t)
  }

  predicate Consistent(t: Tables, isEmail: string -> bool, isDate: string -> bool) {
    RowsValid(t, isEmail, isDate)
    && UniqueStudentEmails(t.students) && UniqueInstructorEmails(t.instructors) && UniqueCodes(t.courses)
    && UniquePairs(t.enrollments) && UniqueRows(t.metadata)
    && Referential(t) && Fresh(t)
  }

  /** The empty database satisfies every constraint. */
  lemma EmptyConsistent(isEmail: string -> bool, isDate: string -> bool)
    ensures Consistent(Empty, isEmail, isDate)
  {
  }

  // ---------------------------------------------------------------- lookups

  /** `Student.objects[.exclude(pk=except)].filter(email=email).exists()` */
  predicate StudentEmailTaken(t: Tables, email: string, except: Option<Id>) {
    exists id :: id in t.students && t.students[id].email == email && except != Some(id)
  }

  predicate InstructorEmailTaken(t: Tables, email: string, except: Option<Id>) {
    exists id :: id in t.instructors && t.instructors[id].email == email && except != Some(id)
  }

  predicate CodeInUse(t: Tables, code: string, except: Option<Id>) {
    exists id :: id in t.courses && t.courses[id].code == code && except != Some(id)
  }

  predicate Enrolled(t: Tables, student: Id, course: Id, except: Option<Id>) {
    exists id :: id in t.enrollments && t.enrollments[id].student == student
                 && t.enrollments[id].course == course && except != Some(id)
  }

  /** A row's own email never counts against it when the row is edited. */
  lemma OwnEmailNotTaken(t: Tables, id: Id)
    requires UniqueStudentEmails(t.students) && id in t.students
    ensures StudentEmailTaken(t, t.students[id].email, None)
    ensures !StudentEmailTaken(t, t.students[id].email, Some(id))
  {
  }

  /**
   * Student and instructor emails are constrained separately: a student and an
   * instructor may share one.
   */
  lemma SharedEmailAllowed(isEmail: string -> bool, isDate: string -> bool)
    requires isEmail("a@b.c") && isDate("2000-01-01")
    ensures Consistent(
              Empty.(students := map[1 := Student("Ann", "Lee", "a@b.c", "2000-01-01")],
                     instructors := map[2 := Instructor("Ann", "Lee", "a@b.c")],
                     nextId := 3),
              isEmail, isDate)
  {
  }
}
