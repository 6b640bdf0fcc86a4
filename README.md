# Student management: the data model and its handlers, verified

This project models the core of a Django application that manages students,
instructors, courses and enrollments. The core has two parts.

- **The schema** (`student/models.py`):
  - Students and instructors each have a unique e-mail address.
  - Each course has a unique code. The code must match `^[A-Z0-9]+$` and have
    at most 20 characters, and `Course.clean` upper-cases it.
  - An enrollment pairs one student with one course. Each pair is unique, and
    the enrollment's optional score is a `DecimalField(5, 2)` in [0, 100].
  - Both foreign keys of an enrollment cascade on delete.
  - Every student, course, instructor and enrollment can be linked to any
    number of `Metadata` key/value rows.
- **The add/edit/delete views** (`student/views.py`):
  - Each view runs its pre-checks and then `full_clean()`/`save()`.
  - Every add view, and the instructor, course and enrollment edit views,
    take a free-text field `key:value, key:value, ...`. The view parses the
    field, fetches or creates one `Metadata` row per pair, and links that row
    to the saved record. Those three edit views first remove the record's
    existing links. `edit_student` reads no metadata: it changes the
    student's four fields and nothing else.

Modules, one file each:

| file | module | contents |
|---|---|---|
| `wrappers.dfy` | `Wrappers` | `Option` |
| `metadata_text.dfy` | `MetadataText` | The metadata parser as pure functions: Python's `split`, `strip`, `split(':', 1)` and the filtering list comprehension. Includes its inverse (`Format`) and the round trip. |
| `fields.dfy` | `Fields` | The field rules `full_clean` applies: required text with a maximum length, the course-code pattern (both as written and corrected), `Course.clean`'s upper-casing, and the decimal score with its three validators. |
| `schema.dfy` | `Schema` | The rows, the `Tables` value (one map per table, the link tables, the id counter), and `Consistent`, which holds every constraint of the models. |
| `updates.dfy` | `Updates` | `save()` of a new row and of an edited row. Proves that each view's uniqueness pre-check is exactly the condition under which the save keeps the constraint. |
| `attachment.dfy` | `Attachment` | `get_or_create` + `metadata.add` over the parsed pairs, `metadata.clear()`, and `courses.set()`, written as functions on `Tables` with their laws. |
| `deletion.dfy` | `Deletion` | `delete()` of each model, including the cascades. |
| `database.dfy` | `Handlers` | Class `Database`: its fields are the tables, and it has one method per POST handler. Each method is proved against the functions above and keeps `Valid()` (= `Consistent`). |

Conventions of the handler methods:
- A handler returns `Ok(id)` or `Err(failure)`. Every failure kind is stated
  as an if-and-only-if over the inputs and the old state.
- A rejection leaves the store unchanged, except for the one partial update
  the views really perform (`CoursesNotSet`).
- A success produces exactly the state given by composing the specification
  functions.

The model follows the code, with one exception: the course-code rule. The
store applies the corrected rule of the Findings row below, so a code ending
in one newline is refused where the views save it (see `## Left out`). Two
behaviours of the code are easy to misread, and the model keeps both:
- **Lower-case course codes are rejected, not upper-cased.** `full_clean`
  records the pattern error for `cs101` before `clean()` upper-cases the code
  in memory. The recorded error still refuses the save, so nothing is stored
  (`Fields.LowercaseCodeRejected`). `Course.clean` therefore never changes a
  code that is stored (`Fields.UpperKeepsValidCode`).
- **The instructor views are not all-or-nothing.** `add_instructor` and
  `edit_instructor` save the instructor row before `courses.set()`. An
  unknown course id raises after the save and is caught. The row is then
  saved or updated, while its courses and metadata are left unchanged
  (`Failure.CoursesNotSet`).

## Model

| member | source | states |
|---|---|---|
| MetadataText.Strip | student/views.py:74 | `strip()`: the result neither starts nor ends with whitespace (Python's `isspace` set) |
| MetadataText.StripTrims | student/views.py:74 | `strip()` is `lstrip()` followed by `rstrip()` |
| MetadataText.StripShape | student/views.py:74 | `strip()` returns a contiguous infix of its argument; everything removed before and after it is whitespace |
| MetadataText.StripKeepsOut | student/views.py:74 | stripping never introduces a character that was not in the input |
| MetadataText.StripIdempotent | student/views.py:74-79 | stripping twice is stripping once |
| MetadataText.Split | student/views.py:74 | `split(',')` always yields at least one piece |
| MetadataText.SplitPiecesFree | student/views.py:74 | no piece of `split(sep)` contains `sep` |
| MetadataText.SplitJoin | student/views.py:74 | splitting loses nothing: `sep.join(s.split(sep)) == s` |
| MetadataText.JoinSplit | student/views.py:74 | joining separator-free pieces and splitting again gives back the pieces |
| MetadataText.SplitAround | student/views.py:74 | a separator cuts the blob into two independently split halves |
| MetadataText.SplitNone | student/views.py:74 | a text without the separator splits into itself |
| MetadataText.Tokens | student/views.py:74 | one stripped token per comma-separated piece |
| MetadataText.FirstIndexOf | student/views.py:77 | the index returned holds the separator |
| MetadataText.FirstIndexIsFirst | student/views.py:77 | no earlier occurrence: `split(':', 1)` cuts at the first `:` |
| MetadataText.PairOf | student/views.py:77-79 | `key, value = token.split(':', 1)` with both sides stripped: the key is the stripped text before the token's first `:`, the value the stripped text after it (proved: `FirstIndexIsFirst`, `PairOfWellFormed`, `CutAtFirstColon`) |
| MetadataText.KeepPairs | student/views.py:75-79 | the loop over the stripped tokens: each token holding `:` contributes its cut, in order, and every other token is skipped (proved: `KeepPairsMembers`, `KeepPairsSnoc`, `KeepPairsAppend`, `KeepNone`) |
| MetadataText.ParsePairs | student/views.py:72-79 | the pairs a metadata blob denotes, the `if metadata_str:` guard included (proved: `ParsedMembers`, `ParsedWellFormed`, `NoColonNoPairs`, `ParseConcat`, `FormatParse`, `ParseNormalises`) |
| MetadataText.CutAtFirstColon | student/views.py:77-79 | `"a: b:c"` yields key `a` and value `b:c` |
| MetadataText.PairOfWellFormed | student/views.py:77-79 | a kept token cuts into a key without `:` or `,`, a value without `,`, both stripped |
| MetadataText.KeepPairsWellFormed | student/views.py:75-79 | every pair produced from stripped, comma-free tokens is well formed |
| MetadataText.ParsedWellFormed | student/views.py:72-79 | every pair the parser yields from any blob is well formed |
| MetadataText.KeepPairsMembers | student/views.py:75-79 | a pair is produced iff some token holds `:` and cuts to it; there are never more pairs than tokens |
| MetadataText.ParsedMembers | student/views.py:72-79 | the pairs of a blob are exactly the cuts of its tokens that hold `:` |
| MetadataText.NoColonNoPairs | student/views.py:76 | a blob without `:` yields no pair, with no error |
| MetadataText.KeepNone | student/views.py:76 | tokens that hold no `:` are all dropped silently |
| MetadataText.KeepPairsCons | student/views.py:75-76 | the first token contributes its pair exactly when it holds `:` |
| MetadataText.KeepPairsSnoc | student/views.py:75-76 | the loop step: one more token appends its pair, if it has one |
| MetadataText.KeepPairsAppend | student/views.py:75-79 | the filter distributes over concatenated token lists |
| MetadataText.ParseUnguarded | student/views.py:73 | the `if metadata_str:` guard only skips work: the empty blob parses to nothing anyway |
| MetadataText.ParseConcat | student/views.py:72-79 | parsing `a + "," + b` is parsing `a`, then `b` |
| MetadataText.RenderedToken | student/views.py:77-79 | a rendered well-formed pair is a kept token that cuts back to the pair |
| MetadataText.KeepRendered | student/views.py:75-79 | the filter returns the pairs whose renderings it is given |
| MetadataText.FormatParse | student/views.py:72-79 | round trip: well-formed pairs, formatted and parsed, come back unchanged and in order |
| MetadataText.ParseNormalises | student/views.py:72-79 | re-parsing the formatted result of a parse changes nothing |
| Fields.TrailingNewlineAccepted | student/models.py:20-23 | the validator as written accepts `"CS101\n"`, which the intended rule refuses |
| Fields.AsWrittenCodes | student/models.py:20-27 | the as-written rule accepts exactly the intended codes, plus any intended code of at most 19 characters followed by one newline |
| Fields.AsWrittenAgrees | student/models.py:20-23 | without a trailing newline the as-written and intended rules agree |
| Fields.ValidCourseCode | student/models.py:20-27 | the corrected code rule: 1-20 characters, every one an upper-case ASCII letter or a digit, with no trailing newline allowed (proved: `AsWrittenAgrees`, `TrailingNewlineAccepted`, `UpperKeepsValidCode`) |
| Fields.CodeAcceptedAsWritten | student/models.py:20-27 | the code rule as the model is written: 1-20 characters, matching `^[A-Z0-9]+$` under `re.search`, where `$` also matches before one final newline (proved: `AsWrittenCodes`, `TrailingNewlineAccepted`) |
| Fields.LowercaseCodeRejected | student/models.py:20-35 | `cs101` fails the pattern; the error is recorded before `clean()` upper-cases it, so the code is refused and nothing is saved |
| Fields.UpperChar | student/models.py:35 | `upper()` changes a character exactly when it is a lower-case ASCII letter, and never yields one |
| Fields.Upper | student/models.py:35 | `course_code.upper()` on ASCII letters: every character upper-cased by `UpperChar`, one for one (proved: `UpperIdempotent`, `UpperKeepsValidCode`) |
| Fields.UpperIdempotent | student/models.py:34-35 | upper-casing twice is upper-casing once |
| Fields.UpperKeepsValidCode | student/models.py:34-35 | `Course.clean` leaves every accepted code unchanged |
| Fields.CleanCode | student/models.py:25-35 | the code is accepted iff it is 1-20 capital letters and digits; the stored code is the submitted one |
| Fields.DigitsBound | student/models.py:52-53 | a coefficient has at most `k` digits iff it is below `10^k` |
| Fields.ScoreValid | student/models.py:52-56 | the score passes `DecimalValidator(5, 2)` (digits, places, whole digits), `MinValueValidator(0)` and `MaxValueValidator(100)` (proved: `ScoreValidIff`, `ScoreExamples`) |
| Fields.ScoreValidIff | student/models.py:52-56 | the three score validators together accept exactly the values with at most two decimal places in [0, 100]; the five-digit limit never refuses such a value |
| Fields.CleanScore | student/models.py:52-56 | a blank score is stored as NULL; otherwise the score is accepted iff valid, and what is stored is the submitted decimal in hundredths, at most 10000 |
| Fields.ScoreExamples | student/models.py:52-56 | `50.25`, `1E+2` and `-0` are accepted; `100.01`, `-0.01`, `50.999` and `0.000` are refused |
| Schema.StudentValid | student/models.py:8-12 | a student row passes `full_clean`: both names non-empty and at most 100 characters, a valid email, a valid date of birth |
| Schema.InstructorValid | student/models.py:38-41 | an instructor row passes `full_clean`: both names non-empty and at most 100 characters, a valid email |
| Schema.CourseValid | student/models.py:25-28 | a course row passes `full_clean`: a non-empty name of at most 200 characters and a code that meets `Fields.ValidCourseCode`; the description may be anything |
| Schema.Consistent | student/models.py:8-73 | every database constraint of the models at once: valid rows, unique student emails, instructor emails, course codes and (student, course) pairs, one row per metadata pair, every link pointing at existing rows, and every id below the counter |
| Schema.StudentEmailTaken | student/views.py:57 | `Student.objects.filter(email=...)`, optionally with `.exclude(pk=...)` as at views.py:106: some other student row has this email |
| Schema.InstructorEmailTaken | student/views.py:173 | `Instructor.objects.filter(email=...)`, optionally with `.exclude(pk=...)` as at views.py:225: some other instructor row has this email |
| Schema.CodeInUse | student/views.py:344 | `Course.objects.exclude(pk=pk).filter(course_code=...)`: some other course row has this code |
| Schema.Enrolled | student/views.py:432 | `Enrollment.objects.filter(student=..., course=...)`: some other enrollment row links this student to this course |
| Schema.EmptyConsistent | student/models.py:8-73 | the empty database satisfies every constraint of the models |
| Schema.OwnEmailNotTaken | student/views.py:106 | the edit check excludes the edited row, so resubmitting one's own email is never a clash |
| Schema.SharedEmailAllowed | student/models.py:11-41 | student and instructor emails are constrained separately: one address may belong to both a student and an instructor |
| Updates.InsertStudent | student/views.py:69-70 | `student.save()` of a new row: the student is stored under the counter's value, which then advances; nothing else changes (proved: `InsertStudentUniqueIff`, `InsertStudentConsistent`) |
| Updates.UpdateStudent | student/views.py:110-117 | `student.save()` of an edited row: that id now holds the new fields; nothing else changes (proved: `UpdateStudentUniqueIff`, `UpdateStudentConsistent`, `UpdateStudentKeepsLinks`) |
| Updates.InsertInstructor | student/views.py:184-185 | `instructor.save()` of a new row under the counter's value (proved: `InsertInstructorUniqueIff`, `InsertInstructorConsistent`) |
| Updates.UpdateInstructor | student/views.py:229-235 | `instructor.save()` of an edited row: only that row changes (proved: `UpdateInstructorUniqueIff`, `UpdateInstructorConsistent`) |
| Updates.InsertCourse | student/views.py:306-307 | `course.save()` of a new row under the counter's value (proved: `InsertCourseUniqueIff`, `InsertCourseConsistent`) |
| Updates.UpdateCourse | student/views.py:348-354 | `course.save()` of an edited row: only that row changes (proved: `UpdateCourseUniqueIff`, `UpdateCourseConsistent`) |
| Updates.InsertEnrollment | student/views.py:436-442 | `enrollment.save()` of a new row under the counter's value (proved: `InsertEnrollmentUniqueIff`, `InsertEnrollmentConsistent`) |
| Updates.UpdateEnrollment | student/views.py:482-489 | `enrollment.save()` of an edited row: only that row changes (proved: `UpdateEnrollmentUniqueIff`, `UpdateEnrollmentConsistent`) |
| Updates.InsertStudentUniqueIff | student/views.py:56-59 | a new student keeps emails unique iff no student holds its email |
| Updates.UpdateStudentUniqueIff | student/views.py:105-108 | an edited student keeps emails unique iff no other student holds the new email |
| Updates.InsertInstructorUniqueIff | student/views.py:172-175 | a new instructor keeps emails unique iff no instructor holds its email |
| Updates.UpdateInstructorUniqueIff | student/views.py:224-227 | an edited instructor keeps emails unique iff no other instructor holds the new email |
| Updates.InsertCourseUniqueIff | student/models.py:27 | a new course keeps codes unique iff no course holds its code |
| Updates.UpdateCourseUniqueIff | student/views.py:343-346 | an edited course keeps codes unique iff no other course holds the new code |
| Updates.InsertEnrollmentUniqueIff | student/views.py:432-434 | a new enrollment keeps `unique_together` iff the pair is not enrolled yet |
| Updates.UpdateEnrollmentUniqueIff | student/models.py:59-60 | an edited enrollment keeps `unique_together` iff no other enrollment holds the pair |
| Updates.InsertStudentConsistent | student/views.py:69-70 | saving a valid student with an unused email keeps every constraint, and the new id names a row |
| Updates.UpdateStudentConsistent | student/views.py:116-117 | saving a valid edit whose email no other student holds keeps every constraint |
| Updates.InsertInstructorConsistent | student/views.py:184-185 | saving a valid instructor with an unused email keeps every constraint |
| Updates.UpdateInstructorConsistent | student/views.py:234-235 | saving a valid instructor edit keeps every constraint |
| Updates.InsertCourseConsistent | student/views.py:306-307 | saving a valid course with an unused code keeps every constraint |
| Updates.UpdateCourseConsistent | student/views.py:353-354 | saving a valid course edit keeps every constraint |
| Updates.InsertEnrollmentConsistent | student/views.py:441-442 | saving an enrollment of existing rows with an in-range score and an unused pair keeps every constraint |
| Updates.UpdateEnrollmentConsistent | student/views.py:488-489 | saving an enrollment edit to an existing course with an unused pair keeps every constraint |
| Updates.UpdateStudentKeepsLinks | student/views.py:110-117 | editing a student changes only that row: enrollments, metadata links and other students are untouched |
| Attachment.AttachSnoc | student/views.py:75-81 | the loop over pairs is a left fold of `get_or_create` + `add` |
| Attachment.AttachTokenStep | student/views.py:75-81 | one loop step over the stripped tokens: a token with `:` attaches its pair, any other is skipped |
| Attachment.HasRow | student/views.py:80 | the lookup half of `Metadata.objects.get_or_create`: some metadata row holds this key and value |
| Attachment.RowOf | student/views.py:80 | the row `get_or_create` returns when the pair exists: a metadata row holding exactly this key and value |
| Attachment.AttachOne | student/views.py:80-81 | one `get_or_create` + `metadata.add`: link the owner to the row holding the pair, creating that row under the counter's value only when no row holds it (proved: `AttachOneRows`) |
| Attachment.Attach | student/views.py:75-81 | the attaching loop: `AttachOne` for each parsed pair, in order (proved: `AttachTags`, `AttachLinks`, `AttachIdempotent`, `AttachReuses`, `AttachConsistent`) |
| Attachment.Replace | student/views.py:240-250 | `metadata.clear()` followed by the attaching loop (proved: `ReplaceExact`, `ReplaceConsistent`) |
| Attachment.AttachOneRows | student/views.py:80-81 | `get_or_create` adds a row only when the pair is absent, under a fresh id, and links the owner to the row holding the pair |
| Attachment.AttachRows | student/views.py:80 | the loop only adds Metadata rows, each holding one of the pairs; existing rows keep their contents |
| Attachment.AttachTags | student/views.py:80-81 | afterwards the owner's links are the old ones plus exactly one link per parsed pair, to the row holding that pair |
| Attachment.AttachLinks | student/views.py:80-81 | the loop touches no other owner's links, and links the owner to every pair |
| Attachment.AttachConsistent | student/views.py:72-81 | attaching metadata to an existing row keeps every constraint |
| Attachment.AttachReuses | student/views.py:80 | pairs already stored create no row: `get_or_create` finds them |
| Attachment.AttachPresent | student/views.py:80-81 | attaching pairs that are already stored and linked changes nothing |
| Attachment.AttachIdempotent | student/views.py:80-81 | attaching the same pairs twice equals attaching them once (one link per pair) |
| Attachment.AttachTwice | student/views.py:80-81 | a pair listed twice in one blob is linked once |
| Attachment.AttachAppend | student/views.py:75-81 | running the loop over `a + b` is running it over `a`, then over `b` |
| Attachment.Untag | student/views.py:241 | `metadata.clear()` removes exactly the owner's links; rows and other tables stay |
| Attachment.UntagConsistent | student/views.py:241 | clearing links keeps every constraint |
| Attachment.ReplaceExact | student/views.py:240-250 | clear-then-attach: the owner is linked to exactly the parsed pairs, other owners keep their links, and every earlier Metadata row remains |
| Attachment.ReplaceConsistent | student/views.py:240-250 | clear-then-attach on an existing row keeps every constraint |
| Attachment.SetTeaching | student/views.py:238 | `courses.set()` changes nothing but the teaching links |
| Attachment.SetTeachingExact | student/views.py:237-238 | afterwards the instructor teaches exactly the given courses; other instructors' courses are unchanged |
| Attachment.SetTeachingConsistent | student/views.py:237-238 | setting existing courses on an existing instructor keeps every constraint |
| Deletion.RemoveStudentCascade | student/models.py:50 | deleting a student removes it and exactly the enrollments that reference it; the other students, the other enrollments with their values, the other tables and the metadata links of every surviving owner are unchanged |
| Deletion.RemoveCourseCascade | student/models.py:51 | deleting a course removes it, exactly its enrollments and exactly its teaching links; the other courses, the other enrollments with their values, the other tables and the metadata links of every surviving owner are unchanged |
| Deletion.RemoveInstructorKeepsCourses | student/models.py:42 | deleting an instructor removes only its own teaching and metadata links; no course is deleted |
| Deletion.RemoveStudent | student/views.py:139 | `student.delete()`: the student, the enrollments that reference it, and the metadata links of all of them (proved: `RemoveStudentCascade`, `RemoveStudentConsistent`) |
| Deletion.RemoveCourse | student/views.py:388 | `course.delete()`: the course, its enrollments, its teaching links, and the metadata links of all of them (proved: `RemoveCourseCascade`, `RemoveCourseConsistent`) |
| Deletion.RemoveInstructor | student/views.py:273 | `instructor.delete()`: the instructor, its teaching links and its metadata links (proved: `RemoveInstructorKeepsCourses`, `RemoveInstructorConsistent`) |
| Deletion.RemoveEnrollment | student/views.py:528 | `enrollment.delete()`: the enrollment and its metadata links (proved: `RemoveEnrollmentConsistent`) |
| Deletion.SubsetConsistent | student/models.py:8-73 | removing rows (with references intact) keeps the validity and unique constraints |
| Deletion.RemoveStudentReferential | student/models.py:50 | after the cascade, no enrollment or link points at a deleted row |
| Deletion.RemoveCourseReferential | student/models.py:51 | after the cascade, no enrollment, teaching link or metadata link points at a deleted row |
| Deletion.RemoveInstructorReferential | student/views.py:273 | after an instructor is deleted, no link points at it |
| Deletion.RemoveEnrollmentReferential | student/views.py:528 | after an enrollment is deleted, no link points at it |
| Deletion.RemoveStudentConsistent | student/views.py:139 | `student.delete()` keeps every constraint |
| Deletion.RemoveCourseConsistent | student/views.py:388 | `course.delete()` keeps every constraint |
| Deletion.RemoveInstructorConsistent | student/views.py:273 | `instructor.delete()` keeps every constraint |
| Deletion.RemoveEnrollmentConsistent | student/views.py:528 | `enrollment.delete()` keeps every constraint |
| Handlers.Database.constructor | student/models.py:8-73 | a new store is empty and satisfies every constraint |
| Handlers.Database.GetOrCreate | student/views.py:80 | returns the row holding the pair: the existing one with nothing changed, or a new row under the next id |
| Handlers.Database.AttachPair | student/views.py:80-81 | one `get_or_create` + `add` |
| Handlers.Database.AttachParsed | student/views.py:72-81 | the metadata loop leaves exactly the state `Attach` of the parsed pairs describes |
| Handlers.Database.ClearLinks | student/views.py:241 | `metadata.clear()` |
| Handlers.Database.ReplaceParsed | student/views.py:240-250 | clear, then the metadata loop |
| Handlers.Database.AddStudent | student/views.py:55-81 | `EmailTaken` iff any student holds the email; `Invalid` iff a field rule fails; otherwise the student is inserted under the next id with the parsed metadata. A rejection changes nothing, and `Valid()` is kept |
| Handlers.Database.EditStudent | student/views.py:102-117 | `NotFound` iff no such student; `EmailTaken` iff another student holds the email (its own never counts); `Invalid` iff a field rule fails; otherwise only the four fields change |
| Handlers.Database.DeleteStudent | student/views.py:137-139 | `NotFound` iff no such student; otherwise the student and its enrollments go (the cascade), with their links |
| Handlers.Database.AddInstructor | student/views.py:171-199 | `EmailTaken`, `Invalid`, then `CoursesNotSet` iff a course id is unknown, in which case only the instructor row is saved; on success the row, exactly the given courses, and the parsed metadata |
| Handlers.Database.EditInstructor | student/views.py:220-250 | `NotFound`, `EmailTaken` (other instructors only), `Invalid`, `CoursesNotSet` (row updated, links untouched); on success the course set and the metadata links are both replaced wholesale |
| Handlers.Database.DeleteInstructor | student/views.py:271-273 | `NotFound` iff no such instructor; otherwise the instructor and its links go, and no course does |
| Handlers.Database.AddCourse | student/views.py:299-318 | `Invalid` iff the name or the code breaks a field rule; `CodeTaken` iff the course is otherwise valid and its code is in use; otherwise the course is inserted with the parsed metadata |
| Handlers.Database.EditCourse | student/views.py:340-365 | `NotFound`; `CodeTaken` iff another course holds the submitted code (checked before validation); `Invalid`; otherwise the fields are updated and the metadata replaced |
| Handlers.Database.DeleteCourse | student/views.py:385-388 | `NotFound` iff no such course; otherwise the course, its enrollments and its links go |
| Handlers.Database.AddEnrollment | student/views.py:418-452 | `NotFound` (student), `CourseRequired` (none selected), `CourseMissing` (unknown course), `AlreadyEnrolled` (pair exists), `Invalid` (score refused), each iff its condition, with no enrollment created; otherwise the enrollment with the cleaned score and the parsed metadata |
| Handlers.Database.EditEnrollment | student/views.py:476-500 | `NotFound` iff the enrollment is missing or belongs to another student; `ServerError` iff the course is blank or unknown; `Invalid` iff the score is refused; `AlreadyEnrolled` iff another enrollment holds the pair; otherwise the course and score are updated and the metadata replaced |
| Handlers.Database.DeleteEnrollment | student/views.py:525-528 | `NotFound` iff the enrollment is missing or belongs to another student; otherwise it and its links go |

## Left out

- Authentication views (`register`, `sign_in`, `sign_out`, `reset_password`, `user_info`) are not modelled: they are password hashing and sessions, which Django handles.
- Rendering, redirects, flash messages and the formatting of `e.message_dict` are not modelled: they are presentation only. A handler reports its outcome as a `Failure` value instead.
- The GET branches of the views are not modelled: they only render forms. The list views' `icontains` search and the dashboard counts are not modelled either: they read the store and never change it, and the search depends on the database's case folding.
- URL routing is not part of this model.
- E-mail syntax (`EmailField`'s validator) and date parsing (`DateField`) are not modelled. They are the parameters `isEmail` and `isDate` of the store.
- Parsing the score text into a `Decimal` is not modelled. The handler receives it already read, as `ScoreInput` (blank, unreadable, or sign/coefficient/exponent as `Decimal.as_tuple()` shows them).
- `Metadata.created_at` and `updated_at` are not modelled: they are clock values.
- `Metadata.key`'s `max_length=100` is not modelled. `get_or_create` does not call `full_clean`, so Django itself does not enforce that limit before the database does.
- Concurrency and transactions are not modelled: the model is sequential, and each handler runs to completion.
- Primary keys come from one counter shared by all tables rather than from one sequence per table. Only the freshness of each new key is modelled.
- Ids that are not numeric, and POST keys that are absent, are not modelled. A course id arrives as an `Option<Id>`, where `None` means none was selected.
- Handlers.Database.AddCourse: applies the corrected course-code rule of the Findings row, not the validator as written. A code that ends in one newline (`"CS101\n"`) is refused as `Invalid`, while `add_course` saves it. When a field rule fails and the code is also taken, the model reports `Invalid`, while Django reports both errors in one `ValidationError`. Nothing is saved either way.
- Handlers.Database.EditCourse: applies the same corrected rule. A code that ends in one newline is refused as `Invalid`, while `edit_course` saves it.
- Handlers.Database.EditEnrollment: when the score is refused and the pair is also taken, the model reports `Invalid`. Django reports both in one `ValidationError`. Either way nothing is saved.
- Fields.Upper: maps each character to exactly one character, so the result has the input's length. Python's `upper()` can lengthen a string (`'ß'` becomes `'SS'`). No stored code is affected, for the reason given on the next line.
- Fields.UpperChar: upper-cases only ASCII letters, while Python's `upper()` also maps other letters. No stored code is affected: a code with any letter outside `A-Z` fails the pattern, and that recorded error refuses the save whatever `clean()` does to the code in memory.
- Handlers.Database.Store writes the whole `Tables` value back. It stands for the single-row `save()`/`delete()` the views issue, and is proved to leave exactly the value given.

## Findings

| source | as written | input that shows it | evidently intended | confidence | as-written member | corrected member |
|---|---|---|---|---|---|---|
| student/models.py:20-23 | `RegexValidator(r'^[A-Z0-9]+$')` uses `re.search` without `\Z`, and in Python `$` also matches just before a final newline, so a code ending in one newline passes | `"CS101\n"` | only capital letters and digits, with no line break | not executed | Fields.TrailingNewlineAccepted | Fields.CleanCode |
