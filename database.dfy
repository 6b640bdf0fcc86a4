/**
 * The store the views of student/views.py change, as a class whose fields are
 * the tables, and one method per add/edit/delete handler (the POST branch).
 * Each method states which outcome it reports under which condition, that a
 * rejection leaves the store as it was, and the new state on success as a
 * function of the old one; every method keeps `Valid()`, the constraints of
 * student/models.py.
 */
module Handlers {
  import opened Wrappers
  import opened Fields
  import opened Schema
  import opened Attachment
  import opened Deletion
  import opened Updates
  import MetadataText

  /**
   * Why a request changes nothing (or, for `CoursesNotSet`, less than asked):
   * a 404, a message rendered back with the form, or an uncaught exception.
   */
  datatype Failure =
    | NotFound         // get_object_or_404 outside the handler's try
    | EmailTaken       // the email pre-check
    | CodeTaken        // the course-code pre-check, or validate_unique
    | CourseRequired   // add_enrollment with no course selected
    | CourseMissing    // add_enrollment with an unknown course id (caught Http404)
    | AlreadyEnrolled  // the (student, course) pre-check, or unique_together
    | Invalid          // a ValidationError from full_clean
    | CoursesNotSet    // courses.set() with an unknown id, after the row was saved
    | ServerError      // Course.objects.get outside the try in edit_enrollment

  datatype Result = Ok(id: Id) | Err(failure: Failure)

  class Database {
    /** The e-mail grammar of `EmailField` and the date parser of `DateField`. */
    const isEmail: string -> bool
    const isDate: string -> bool

    var students: map<Id, Student>
    var courses: map<Id, Course>
    var instructors: map<Id, Instructor>
    var enrollments: map<Id, Enrollment>
    var metadata: map<Id, MetadataText.Pair>
    var tags: set<(Owner, Id)>
    var teaches: set<(Id, Id)>
    var nextId: Id

    function Snapshot(): Tables
      reads this
    {
      Tables(students, courses, instructors, enrollments, metadata, tags, teaches, nextId)
    }

    ghost predicate Valid()
      reads this
    {
      Consistent(Snapshot(), isEmail, isDate)
    }

    constructor (isEmail: string -> bool, isDate: string -> bool)
      ensures Valid() && Snapshot() == Empty
      ensures this.isEmail == isEmail && this.isDate == isDate
    {
      this.isEmail, this.isDate := isEmail, isDate;
      students, courses, instructors, enrollments := map[], map[], map[], map[];
      metadata, tags, teaches, nextId := map[], {}, {}, 1;
      new;
      EmptyConsistent(isEmail, isDate);
    }

    // ---------------------------------------------------------------- metadata

    /** `Metadata.objects.get_or_create(key=p.key, value=p.value)` */
    method GetOrCreate(p: MetadataText.Pair) returns (id: Id)
      requires UniqueRows(Snapshot().metadata) && RowsFresh(Snapshot())
      modifies this
      ensures id in metadata && metadata[id] == p
      ensures old(HasRow(Snapshot(), p)) ==> id == old(RowOf(Snapshot(), p)) && Snapshot() == old(Snapshot())
      ensures !old(HasRow(Snapshot(), p)) ==>
                id == old(nextId)
                && Snapshot() == old(Snapshot()).(metadata := old(metadata)[id := p], nextId := id + 1)
    {
      if exists k :: k in metadata && metadata[k] == p {
        id :| id in metadata && metadata[id] == p;
      } else {
        id := nextId;
        metadata := metadata[id := p];
        nextId := nextId + 1;
      }
    }

    /** `meta, _ = get_or_create(...)` then `<row>.metadata.add(meta)` */
    method AttachPair(o: Owner, p: MetadataText.Pair)
      requires UniqueRows(Snapshot().metadata) && RowsFresh(Snapshot())
      modifies this
      ensures Snapshot() == AttachOne(old(Snapshot()), o, p)
    {
      var id := GetOrCreate(p);
      tags := tags + {(o, id)};
    }

    /**
     * The loop every add/edit handler runs over the metadata blob: for each
     * stripped token holding ':', get or create the row and link it to `o`.
     */
    method AttachParsed(o: Owner, blob: string)
      requires UniqueRows(Snapshot().metadata) && RowsFresh(Snapshot())
      modifies this
      ensures Snapshot() == Attach(old(Snapshot()), o, MetadataText.ParsePairs(blob))
    {
      ghost var start := Snapshot();
      if blob != [] {
        var tokens := MetadataText.Tokens(blob);
        var i := 0;
        while i < |tokens|
          invariant 0 <= i <= |tokens|
          invariant Snapshot() == Attach(start, o, MetadataText.KeepPairs(tokens[..i]))
        {
          var token := tokens[i];
          AttachTokenStep(start, o, tokens, i);
          if ':' in token {
            AttachRows(start, o, MetadataText.KeepPairs(tokens[..i]));
            AttachPair(o, MetadataText.PairOf(token));
          }
          i := i + 1;
        }
        assert tokens[..|tokens|] == tokens;
      }
    }

    /** `<row>.metadata.clear()` followed by the attaching loop. */
    method ReplaceParsed(o: Owner, blob: string)
      requires UniqueRows(Snapshot().metadata) && RowsFresh(Snapshot())
      modifies this
      ensures Snapshot() == Replace(old(Snapshot()), o, MetadataText.ParsePairs(blob))
    {
      ClearLinks(o);
      AttachParsed(o, blob);
    }

    /** Writes the tables back: what a handler's `save()`/`delete()` calls leave behind. */
    method Store(t: Tables)
      requires Consistent(t, isEmail, isDate)
      modifies this
      ensures Snapshot() == t
      ensures Valid()
    {
      students, courses, instructors, enrollments := t.students, t.courses, t.instructors, t.enrollments;
      metadata, tags, teaches, nextId := t.metadata, t.tags, t.teaches, t.nextId;
    }

    /** `<row>.metadata.clear()`: the owner's links go, the Metadata rows stay. */
    method ClearLinks(o: Owner)
      modifies this
      ensures Snapshot() == Untag(old(Snapshot()), o)
    {
      tags := set x | x in tags && x.0 != o;
    }

    // ---------------------------------------------------------------- students

    /** add_students */
    method AddStudent(s: Student, blob: string) returns (r: Result)
      requires Valid()
      modifies this
      ensures Valid()
      ensures r == Err(EmailTaken) <==> old(StudentEmailTaken(Snapshot(), s.email, None))
      ensures r == Err(Invalid) <==>
                !old(StudentEmailTaken(Snapshot(), s.email, None)) && !StudentValid(s, isEmail, isDate)
      ensures r.Ok? <==>
                !old(StudentEmailTaken(Snapshot(), s.email, None)) && StudentValid(s, isEmail, isDate)
      ensures r.Err? ==> Snapshot() == old(Snapshot())
      ensures r.Ok? ==>
                r.id == old(nextId)
                && Snapshot() == Attach(InsertStudent(old(Snapshot()), s), OfStudent(r.id), MetadataText.ParsePairs(blob))
    {
      if StudentEmailTaken(Snapshot(), s.email, None) {
        return Err(EmailTaken);
      }
      if !StudentValid(s, isEmail, isDate) {
        return Err(Invalid);
      }
      var id := nextId;
      InsertStudentConsistent(Snapshot(), s, isEmail, isDate);
      var saved := InsertStudent(Snapshot(), s);
      Store(saved);
      AttachParsed(OfStudent(id), blob);
      AttachConsistent(saved, OfStudent(id), MetadataText.ParsePairs(blob), isEmail, isDate);
      r := Ok(id);
    }

    /** edit_student: the four fields change; links and enrollments do not. */
    method EditStudent(id: Id, s: Student) returns (r: Result)
      requires Valid()
      modifies this
      ensures Valid()
      ensures r == Err(NotFound) <==> id !in old(students)
      ensures r == Err(EmailTaken) <==>
                id in old(students) && old(StudentEmailTaken(Snapshot(), s.email, Some(id)))
      ensures r == Err(Invalid) <==>
                id in old(students) && !old(StudentEmailTaken(Snapshot(), s.email, Some(id)))
                && !StudentValid(s, isEmail, isDate)
      ensures r.Ok? <==>
                id in old(students) && !old(StudentEmailTaken(Snapshot(), s.email, Some(id)))
                && StudentValid(s, isEmail, isDate)
      ensures r.Err? ==> Snapshot() == old(Snapshot())
      ensures r.Ok? ==> r.id == id && Snapshot() == UpdateStudent(old(Snapshot()), id, s)
    {
      if id !in students {
        return Err(NotFound);
      }
      if StudentEmailTaken(Snapshot(), s.email, Some(id)) {
        return Err(EmailTaken);
      }
      if !StudentValid(s, isEmail, isDate) {
        return Err(Invalid);
      }
      UpdateStudentConsistent(Snapshot(), id, s, isEmail, isDate);
      Store(UpdateStudent(Snapshot(), id, s));
      r := Ok(id);
    }

    /** delete_student: the cascade of `Enrollment.student`. */
    method DeleteStudent(id: Id) returns (r: Result)
      requires Valid()
      modifies this
      ensures Valid()
      ensures r == Err(NotFound) <==> id !in old(students)
      ensures r.Err? ==> r == Err(NotFound) && Snapshot() == old(Snapshot())
      ensures r.Ok? ==> r.id == id && Snapshot() == RemoveStudent(old(Snapshot()), id)
    {
      if id !in students {
        return Err(NotFound);
      }
      RemoveStudentConsistent(Snapshot(), id, isEmail, isDate);
      var t := RemoveStudent(Snapshot(), id);
      Store(t);
      r := Ok(id);
    }

    // ---------------------------------------------------------------- instructors

    /**
     * add_instructor: the row is saved before `courses.set`, so an unknown
     * course id leaves a saved instructor with no courses and no metadata.
     */
    method AddInstructor(ins: Instructor, courseIds: set<Id>, blob: string) returns (r: Result)
      requires Valid()
      modifies this
      ensures Valid()
      ensures r == Err(EmailTaken) <==> old(InstructorEmailTaken(Snapshot(), ins.email, None))
      ensures r == Err(Invalid) <==>
                !old(InstructorEmailTaken(Snapshot(), ins.email, None)) && !InstructorValid(ins, isEmail)
      ensures r == Err(CoursesNotSet) <==>
                !old(InstructorEmailTaken(Snapshot(), ins.email, None)) && InstructorValid(ins, isEmail)
                && !(courseIds <= old(courses).Keys)
      ensures r.Ok? <==>
                !old(InstructorEmailTaken(Snapshot(), ins.email, None)) && InstructorValid(ins, isEmail)
                && courseIds <= old(courses).Keys
      ensures r == Err(EmailTaken) || r == Err(Invalid) ==> Snapshot() == old(Snapshot())
      ensures r == Err(CoursesNotSet) ==> Snapshot() == InsertInstructor(old(Snapshot()), ins)
      ensures r.Ok? ==>
                r.id == old(nextId)
                && Snapshot() == Attach(SetTeaching(InsertInstructor(old(Snapshot()), ins), r.id, courseIds),
                                        OfInstructor(r.id), MetadataText.ParsePairs(blob))
    {
      if InstructorEmailTaken(Snapshot(), ins.email, None) {
        return Err(EmailTaken);
      }
      if !InstructorValid(ins, isEmail) {
        return Err(Invalid);
      }
      var id := nextId;
      InsertInstructorConsistent(Snapshot(), ins, isEmail, isDate);
      var saved := InsertInstructor(Snapshot(), ins);
      Store(saved);
      if !(courseIds <= courses.Keys) {
        return Err(CoursesNotSet);
      }
      SetTeachingConsistent(saved, id, courseIds, isEmail, isDate);
      var taught := SetTeaching(saved, id, courseIds);
      Store(taught);
      AttachParsed(OfInstructor(id), blob);
      AttachConsistent(taught, OfInstructor(id), MetadataText.ParsePairs(blob), isEmail, isDate);
      r := Ok(id);
    }

    /**
     * edit_instructor: the fields are saved, then the course set and the
     * metadata links are replaced wholesale; an unknown course id stops after
     * the save.
     */
    method EditInstructor(id: Id, ins: Instructor, courseIds: set<Id>, blob: string) returns (r: Result)
      requires Valid()
      modifies this
      ensures Valid()
      ensures r == Err(NotFound) <==> id !in old(instructors)
      ensures r == Err(EmailTaken) <==>
                id in old(instructors) && old(InstructorEmailTaken(Snapshot(), ins.email, Some(id)))
      ensures r == Err(Invalid) <==>
                id in old(instructors) && !old(InstructorEmailTaken(Snapshot(), ins.email, Some(id)))
                && !InstructorValid(ins, isEmail)
      ensures r == Err(CoursesNotSet) <==>
                id in old(instructors) && !old(InstructorEmailTaken(Snapshot(), ins.email, Some(id)))
                && InstructorValid(ins, isEmail) && !(courseIds <= old(courses).Keys)
      ensures r.Ok? <==>
                id in old(instructors) && !old(InstructorEmailTaken(Snapshot(), ins.email, Some(id)))
                && InstructorValid(ins, isEmail) && courseIds <= old(courses).Keys
      ensures r == Err(NotFound) || r == Err(EmailTaken) || r == Err(Invalid) ==> Snapshot() == old(Snapshot())
      ensures r == Err(CoursesNotSet) ==> Snapshot() == UpdateInstructor(old(Snapshot()), id, ins)
      ensures r.Ok? ==>
                r.id == id
                && Snapshot() == Replace(SetTeaching(UpdateInstructor(old(Snapshot()), id, ins), id, courseIds),
                                         OfInstructor(id), MetadataText.ParsePairs(blob))
    {
      if id !in instructors {
        return Err(NotFound);
      }
      if InstructorEmailTaken(Snapshot(), ins.email, Some(id)) {
        return Err(EmailTaken);
      }
      if !InstructorValid(ins, isEmail) {
        return Err(Invalid);
      }
      UpdateInstructorConsistent(Snapshot(), id, ins, isEmail, isDate);
      var saved := UpdateInstructor(Snapshot(), id, ins);
      Store(saved);
      if !(courseIds <= courses.Keys) {
        return Err(CoursesNotSet);
      }
      SetTeachingConsistent(saved, id, courseIds, isEmail, isDate);
      var taught := SetTeaching(saved, id, courseIds);
      Store(taught);
      ReplaceParsed(OfInstructor(id), blob);
      ReplaceConsistent(taught, OfInstructor(id), MetadataText.ParsePairs(blob), isEmail, isDate);
      r := Ok(id);
    }

    /** delete_instructor: its links go; no course does. */
    method DeleteInstructor(id: Id) returns (r: Result)
      requires Valid()
      modifies this
      ensures Valid()
      ensures r == Err(NotFound) <==> id !in old(instructors)
      ensures r.Err? ==> r == Err(NotFound) && Snapshot() == old(Snapshot())
      ensures r.Ok? ==> r.id == id && Snapshot() == RemoveInstructor(old(Snapshot()), id)
    {
      if id !in instructors {
        return Err(NotFound);
      }
      RemoveInstructorConsistent(Snapshot(), id, isEmail, isDate);
      var t := RemoveInstructor(Snapshot(), id);
      Store(t);
      r := Ok(id);
    }

    // ---------------------------------------------------------------- courses

    /**
     * add_course: `full_clean` (field rules, then `clean`'s upper-casing, then
     * the unique code) decides; a saved course gets the parsed metadata.
     */
    method AddCourse(c: Course, blob: string) returns (r: Result)
      requires Valid()
      modifies this
      ensures Valid()
      ensures r == Err(Invalid) <==> !CourseValid(c)
      ensures r == Err(CodeTaken) <==> CourseValid(c) && old(CodeInUse(Snapshot(), c.code, None))
      ensures r.Ok? <==> CourseValid(c) && !old(CodeInUse(Snapshot(), c.code, None))
      ensures r.Err? ==> Snapshot() == old(Snapshot())
      ensures r.Ok? ==>
                r.id == old(nextId)
                && Snapshot() == Attach(InsertCourse(old(Snapshot()), c), OfCourse(r.id), MetadataText.ParsePairs(blob))
    {
      var code := CleanCode(c.code);
      if !ValidText(c.name, CourseNameMaxLength) || code.None? {
        return Err(Invalid);
      }
      var cleaned := c.(code := code.value);
      if CodeInUse(Snapshot(), cleaned.code, None) {
        return Err(CodeTaken);
      }
      var id := nextId;
      InsertCourseConsistent(Snapshot(), cleaned, isEmail, isDate);
      var saved := InsertCourse(Snapshot(), cleaned);
      Store(saved);
      AttachParsed(OfCourse(id), blob);
      AttachConsistent(saved, OfCourse(id), MetadataText.ParsePairs(blob), isEmail, isDate);
      r := Ok(id);
    }

    /**
     * edit_course: the code pre-check runs on the submitted code before any
     * validation; the metadata links are replaced.
     */
    method EditCourse(id: Id, c: Course, blob: string) returns (r: Result)
      requires Valid()
      modifies this
      ensures Valid()
      ensures r == Err(NotFound) <==> id !in old(courses)
      ensures r == Err(CodeTaken) <==> id in old(courses) && old(CodeInUse(Snapshot(), c.code, Some(id)))
      ensures r == Err(Invalid) <==>
                id in old(courses) && !old(CodeInUse(Snapshot(), c.code, Some(id))) && !CourseValid(c)
      ensures r.Ok? <==>
                id in old(courses) && !old(CodeInUse(Snapshot(), c.code, Some(id))) && CourseValid(c)
      ensures r.Err? ==> Snapshot() == old(Snapshot())
      ensures r.Ok? ==>
                r.id == id
                && Snapshot() == Replace(UpdateCourse(old(Snapshot()), id, c), OfCourse(id), MetadataText.ParsePairs(blob))
    {
      if id !in courses {
        return Err(NotFound);
      }
      if CodeInUse(Snapshot(), c.code, Some(id)) {
        return Err(CodeTaken);
      }
      var code := CleanCode(c.code);
      if !ValidText(c.name, CourseNameMaxLength) || code.None? {
        return Err(Invalid);
      }
      var cleaned := c.(code := code.value);
      UpdateCourseConsistent(Snapshot(), id, cleaned, isEmail, isDate);
      var saved := UpdateCourse(Snapshot(), id, cleaned);
      Store(saved);
      ReplaceParsed(OfCourse(id), blob);
      ReplaceConsistent(saved, OfCourse(id), MetadataText.ParsePairs(blob), isEmail, isDate);
      r := Ok(id);
    }

    /** delete_course: the cascade of `Enrollment.course`, and the course's links. */
    method DeleteCourse(id: Id) returns (r: Result)
      requires Valid()
      modifies this
      ensures Valid()
      ensures r == Err(NotFound) <==> id !in old(courses)
      ensures r.Err? ==> r == Err(NotFound) && Snapshot() == old(Snapshot())
      ensures r.Ok? ==> r.id == id && Snapshot() == RemoveCourse(old(Snapshot()), id)
    {
      if id !in courses {
        return Err(NotFound);
      }
      RemoveCourseConsistent(Snapshot(), id, isEmail, isDate);
      var t := RemoveCourse(Snapshot(), id);
      Store(t);
      r := Ok(id);
    }

    // ---------------------------------------------------------------- enrollments

    /** add_enrollment for the student `studentId`; `course` is `None` when none was selected. */
    method AddEnrollment(studentId: Id, course: Option<Id>, score: ScoreInput, blob: string) returns (r: Result)
      requires Valid()
      modifies this
      ensures Valid()
      ensures r == Err(NotFound) <==> studentId !in old(students)
      ensures r == Err(CourseRequired) <==> studentId in old(students) && course.None?
      ensures r == Err(CourseMissing) <==>
                studentId in old(students) && course.Some? && course.value !in old(courses)
      ensures r == Err(AlreadyEnrolled) <==>
                studentId in old(students) && course.Some? && course.value in old(courses)
                && old(Enrolled(Snapshot(), studentId, course.value, None))
      ensures r == Err(Invalid) <==>
                studentId in old(students) && course.Some? && course.value in old(courses)
                && !old(Enrolled(Snapshot(), studentId, course.value, None))
                && CleanScore(score).Rejected?
      ensures r.Ok? <==>
                studentId in old(students) && course.Some? && course.value in old(courses)
                && !old(Enrolled(Snapshot(), studentId, course.value, None))
                && CleanScore(score).Accepted?
      ensures r.Err? ==> Snapshot() == old(Snapshot())
      ensures r.Ok? ==>
                r.id == old(nextId)
                && Snapshot() == Attach(InsertEnrollment(old(Snapshot()),
                                                         Enrollment(studentId, course.value, CleanScore(score).score)),
                                        OfEnrollment(r.id), MetadataText.ParsePairs(blob))
    {
      if studentId !in students {
        return Err(NotFound);
      }
      if course.None? {
        return Err(CourseRequired);
      }
      if course.value !in courses {
        return Err(CourseMissing);
      }
      if Enrolled(Snapshot(), studentId, course.value, None) {
        return Err(AlreadyEnrolled);
      }
      var cleaned := CleanScore(score);
      if cleaned.Rejected? {
        return Err(Invalid);
      }
      var e := Enrollment(studentId, course.value, cleaned.score);
      var id := nextId;
      InsertEnrollmentConsistent(Snapshot(), e, isEmail, isDate);
      var saved := InsertEnrollment(Snapshot(), e);
      Store(saved);
      AttachParsed(OfEnrollment(id), blob);
      AttachConsistent(saved, OfEnrollment(id), MetadataText.ParsePairs(blob), isEmail, isDate);
      r := Ok(id);
    }

    /**
     * edit_enrollment: the enrollment must belong to `studentId`; a missing
     * course is an uncaught lookup error; then the score rule and
     * `unique_together` (excluding this row) decide; the metadata links are
     * replaced.
     */
    method EditEnrollment(studentId: Id, id: Id, course: Option<Id>, score: ScoreInput, blob: string)
      returns (r: Result)
      requires Valid()
      modifies this
      ensures Valid()
      ensures r == Err(NotFound) <==> id !in old(enrollments) || old(enrollments)[id].student != studentId
      ensures r == Err(ServerError) <==>
                id in old(enrollments) && old(enrollments)[id].student == studentId
                && (course.None? || course.value !in old(courses))
      ensures r == Err(Invalid) <==>
                id in old(enrollments) && old(enrollments)[id].student == studentId
                && course.Some? && course.value in old(courses) && CleanScore(score).Rejected?
      ensures r == Err(AlreadyEnrolled) <==>
                id in old(enrollments) && old(enrollments)[id].student == studentId
                && course.Some? && course.value in old(courses) && CleanScore(score).Accepted?
                && old(Enrolled(Snapshot(), studentId, course.value, Some(id)))
      ensures r.Ok? <==>
                id in old(enrollments) && old(enrollments)[id].student == studentId
                && course.Some? && course.value in old(courses) && CleanScore(score).Accepted?
                && !old(Enrolled(Snapshot(), studentId, course.value, Some(id)))
      ensures r.Err? ==> Snapshot() == old(Snapshot())
      ensures r.Ok? ==>
                r.id == id
                && Snapshot() == Replace(UpdateEnrollment(old(Snapshot()), id,
                                                          Enrollment(studentId, course.value, CleanScore(score).score)),
                                         OfEnrollment(id), MetadataText.ParsePairs(blob))
    {
      if id !in enrollments || enrollments[id].student != studentId {
        return Err(NotFound);
      }
      if course.None? || course.value !in courses {
        return Err(ServerError);
      }
      var cleaned := CleanScore(score);
      if cleaned.Rejected? {
        return Err(Invalid);
      }
      if Enrolled(Snapshot(), studentId, course.value, Some(id)) {
        return Err(AlreadyEnrolled);
      }
      var e := Enrollment(studentId, course.value, cleaned.score);
      UpdateEnrollmentConsistent(Snapshot(), id, e, isEmail, isDate);
      var saved := UpdateEnrollment(Snapshot(), id, e);
      Store(saved);
      ReplaceParsed(OfEnrollment(id), blob);
      ReplaceConsistent(saved, OfEnrollment(id), MetadataText.ParsePairs(blob), isEmail, isDate);
      r := Ok(id);
    }

    /** delete_enrollment: only an enrollment of `studentId` is found. */
    method DeleteEnrollment(studentId: Id, id: Id) returns (r: Result)
      requires Valid()
      modifies this
      ensures Valid()
      ensures r == Err(NotFound) <==> id !in old(enrollments) || old(enrollments)[id].student != studentId
      ensures r.Err? ==> r == Err(NotFound) && Snapshot() == old(Snapshot())
      ensures r.Ok? ==> r.id == id && Snapshot() == RemoveEnrollment(old(Snapshot()), id)
    {
      if id !in enrollments || enrollments[id].student != studentId {
        return Err(NotFound);
      }
      RemoveEnrollmentConsistent(Snapshot(), id, isEmail, isDate);
      var t := RemoveEnrollment(Snapshot(), id);
      Store(t);
      r := Ok(id);
    }
  }
}
