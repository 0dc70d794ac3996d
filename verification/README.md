# University enrollment manager — a Dafny model

The system is an ASP.NET Core MVC application that keeps the students,
teachers and courses of a faculty and the enrollments that join them.

- An administrator manages the registers. They enroll the students eligible for
  a course's period (a year and a winter or summer semester) and later close
  those enrollments.
- A teacher grades the students of their own courses, year by year.
- A student sees their own row of a course and attaches a project link and a
  seminar paper to it.

The store is an Entity Framework context. It declares these rules:

- keys are unique;
- a student's index number is unique;
- at most one enrollment exists per (course, student) pair;
- every foreign key resolves;
- a course's teacher may not be deleted while a course still names them.

This model covers the controllers' core and the store's rules:

| Module | File | What it holds |
|---|---|---|
| `Seqs` | `seqs.dfy` | Sequence vocabulary: an `Option`, order-keeping `Filter`, `Distinct`, `RemoveAt`, `FindIndex`. |
| `Text` | `text.dfy` | .NET string helpers the controllers rely on: `Trim`, `IsNullOrWhiteSpace`, `ToLowerInvariant`, case-insensitive equality, `Contains`, `Path.GetExtension`. |
| `Ordering` | `ordering.dfy` | `OrderBy(...).ThenBy(...)` as an insertion sort on a key. It is proved sorted and a permutation. |
| `Models` | `models.dfy` | The entities as values, the signed-in user (`Principal`) and the outcomes of an action. |
| `Data` | `data.dfy` | The rules of `OnModelCreating` as predicates. `ApplicationDbContext` is a class whose tables are sequence fields that the actions reassign. |
| `Uploads` | `uploads.dfy` | The extension allow-lists of the two upload helpers and the path they store. |
| `Periods` | `periods.dfy` | Semester-name normalisation and the eligibility rule for a period. |
| `Lifecycle` | `lifecycle.dfy` | Enrolling a selection of students, and closing enrollments. |
| `Grading` | `grading.dfy` | The teacher's grade sheet, and the student's own update of a row. |
| `Visibility` | `visibility.dfy` | The role-scoped course list, and the year logic of the teacher's and the student's course pages. |
| `Teachers` | `teachers.dfy` | The teacher register: search, edit, and delete with course detachment. |
| `Students` | `students.dfy` | The student register: search, create with account rollback, edit, and delete with cascade. |

Each state-changing action is a module-level method that takes the store
(`db: ApplicationDbContext`) and may modify it. Its contract has three parts:

1. It keeps the store's rules.
2. It states the new tables in terms of a specification function of the old
   ones.
3. It states which outcome the request gets.

The outcomes are `Forbidden`, `NotFound`, a rejected form, a thrown save
error, or `Done`. The lemmas beside each action prove what that
specification function promises.

In these places the code behaves in a way a reader might not expect, and the
model follows the code:

- **Null semester.** A student whose current semester is null counts as being
  in an odd (winter) semester. C#'s lifted `%` and `!=` make the test true.
- **Student delete.** Deleting a student also removes that student's
  enrollments. The enrollment's student key is required, so Entity Framework
  cascades the delete.
- **Course list filters.** The course list ignores its title, semester,
  programme and teacher parameters. The teacher id only preselects an entry of
  a drop-down list.
- **Unmatched semester text.** A semester text that matches neither season is
  treated as winter.

## Model

| member | source | states |
|---|---|---|
| Periods.NormalizeSemester | Controllers/CoursesController.cs:428-442 | The result is always "Winter" or "Summer". It is "Summer" exactly when the trimmed input spells summer (English or Macedonian, Latin or Cyrillic, any case). Winter spellings, null, blank and unknown text give "Winter". |
| Periods.NormalizeIdempotent | Controllers/CoursesController.cs:428-442 | Normalising an already normalised name changes nothing. |
| Periods.NormalizeCanonical | Controllers/CoursesController.cs:428-442 | The two canonical names map to themselves. |
| Periods.InOddSemester | Controllers/CoursesController.cs:420 | A student is in an odd semester when the semester number is odd. A student without a current semester also counts, because C#'s lifted `%` and `!=` make the test true. |
| Periods.IsEligible | Controllers/CoursesController.cs:417-421 | A student is eligible for a period when they enrolled in its year and their semester parity matches the normalised season: odd for winter, even for summer. |
| Periods.EligibleStudentIds | Controllers/CoursesController.cs:415-426 | An id is returned exactly when some student with that id is eligible for the period. Every returned id therefore belongs to an existing student. |
| Periods.EligibilityIgnoresRenormalising | Controllers/CoursesController.cs:209 | The action normalises the semester, and the helper normalises it a second time. The second pass does not change which students are eligible. |
| Periods.PeriodsPartitionYear | Controllers/CoursesController.cs:415-426 | For one year, the winter and the summer eligible sets are disjoint. Their union is every student who enrolled that year. |
| Periods.NullSemesterCountsAsWinter | Controllers/CoursesController.cs:418-421 | A student without a current semester is eligible exactly for a period that normalises to winter. |
| Periods.PaddedZimski | Controllers/CoursesController.cs:430-438 | " zimski " is a winter spelling once it is trimmed. |
| Periods.CyrillicLeten | Controllers/CoursesController.cs:438-439 | "Летен" is a summer spelling. |
| Periods.SeedWinterStudent | Migrations/20251219152225_SeedData.cs:21-25 | Seed student 1 (enrolled 2022, semester 3) is eligible for the 2022 winter period under any winter spelling. They are not eligible for summer or for another year. |
| Periods.SeedSummerStudent | Migrations/20251219152225_SeedData.cs:25 | Seed student 5 (enrolled 2020, semester 6) is eligible for the 2020 summer period and not for winter. |
| Lifecycle.PassedStudentIds | Controllers/CoursesController.cs:219-222 | The students with a grade of 6 or more in the course. A null grade does not pass. |
| Lifecycle.InPeriod | Controllers/CoursesController.cs:239-246 | A row is of the period when its course and year match and its stored semester equals the normalised name exactly. |
| Lifecycle.EnrolledForPeriod | Controllers/CoursesController.cs:239-246 | The students who already have a row of the course for the period. |
| Lifecycle.EnrollmentPlan | Controllers/CoursesController.cs:211-267 | Returns the students to insert, without duplicates. An id is in the plan exactly when it is selected, eligible, has not passed the course (grade 6 or more) and has no row of the course for this period. An empty selection gives an empty plan. |
| Lifecycle.NewRows | Controllers/CoursesController.cs:251-267 | Produces one new row per planned student. |
| Lifecycle.NewRowsAreBlank | Controllers/CoursesController.cs:251-267 | Every new row is for the course and the period, active and ungraded. Every planned student gets a row. |
| Lifecycle.NewRowsKeepKeys | Controllers/CoursesController.cs:270-271 | The identity values given to the inserted rows are fresh. |
| Lifecycle.NewRowsPairIndex | Data/ApplicationDbContext.cs:39-41 | The inserted rows keep the (course, student) index unique whenever the plan and the old rows do. |
| Lifecycle.NewRowsRefs | Data/ApplicationDbContext.cs:43-51 | After the insert, the foreign keys resolve exactly when the plan is empty or the course exists. |
| Lifecycle.EnrollSaveSucceedsIff | Controllers/CoursesController.cs:240-274 | The insert keeps the store consistent exactly when the course exists (or nothing is inserted) and no planned student already has a row of the course from another period. |
| Lifecycle.EnrollIdempotent | Controllers/CoursesController.cs:240-267 | Repeating the same request after a save plans nobody. |
| Lifecycle.EnrollmentPlanCollides | Controllers/CoursesController.cs:240-274 | The consistent store of the finding (a failed winter row) makes the summer enrollment of two students fail as a whole. |
| Lifecycle.CounterexamplePlan | Controllers/CoursesController.cs:219-246 | In that store, both selected students are planned. |
| Lifecycle.SafeEnrollmentPlan | Controllers/CoursesController.cs:240-267 | The corrected plan also leaves out students who already have a row of the course. |
| Lifecycle.SafePlanSaves | Data/ApplicationDbContext.cs:39-51 | The corrected batch is always accepted for an existing course. |
| Lifecycle.PlansAgreeWhenSaved | Controllers/CoursesController.cs:240-274 | Whenever the code as written saves, the corrected plan is the same plan. |
| Lifecycle.SafeEnrollIdempotent | Controllers/CoursesController.cs:240-267 | Repeating a corrected enrollment plans nobody. |
| Lifecycle.SafePlanSavesWhenCourseExists | Data/ApplicationDbContext.cs:43-51 | A corrected batch is refused only when the course does not exist. |
| Lifecycle.EnrollStudents | Controllers/CoursesController.cs:203-278 | Admin only. Rows of the plan are appended, with fresh identities, exactly when the store stays consistent. Otherwise the save throws and nothing changes. The other tables are untouched. |
| Lifecycle.SafeBatchOutcome | Controllers/CoursesController.cs:251-274 | The corrected batch is numbered from the next identity value, and the store refuses it only when the course does not exist. |
| Lifecycle.EnrollStudentsSafely | Controllers/CoursesController.cs:203-278 | The corrected action: for an existing course, the corrected plan's rows are always appended. |
| Lifecycle.Deactivated | Controllers/CoursesController.cs:296-304 | The table keeps its length. |
| Lifecycle.DeactivatedExactly | Controllers/CoursesController.cs:296-304 | Every selected row of the course and period gets the given finish date. Rows that were already inactive are selected too, and their old date is overwritten. Only the finish date changes, and every other row is unchanged. |
| Lifecycle.DeactivationNeverReactivates | Controllers/CoursesController.cs:296-304 | No row goes from inactive to active. |
| Lifecycle.DeactivateIdempotent | Controllers/CoursesController.cs:296-304 | Closing the same rows twice equals closing them once. |
| Lifecycle.DeactivateKeepsConsistent | Data/ApplicationDbContext.cs:39-51 | Closing rows keeps the store consistent and keeps the keys below the identity counter. |
| Lifecycle.DeactivateStudents | Controllers/CoursesController.cs:280-309 | Admin only. An empty selection changes nothing. Otherwise the table becomes `Deactivated` of the old one. |
| Grading.SameKeysKeepConsistent | Data/ApplicationDbContext.cs:39-51 | Rewriting rows without touching their keys keeps the store consistent. |
| Grading.FirstRowFor | Controllers/CoursesController.cs:535 | Returns the submitted row for an enrollment id, and it is the first one on the sheet. |
| Grading.Graded | Controllers/CoursesController.cs:530-544 | Rows keep their ids, courses and students. |
| Grading.GradedExactly | Controllers/CoursesController.cs:530-544 | An active row of the course and year that is on the sheet takes the six graded fields from its first sheet row, nulls included. It keeps its period, links and keys. A finished row, and every row not on the sheet, is unchanged. |
| Grading.GradingIdempotent | Controllers/CoursesController.cs:530-544 | Submitting the same sheet twice equals submitting it once. |
| Grading.UpdateEnrollments | Controllers/CoursesController.cs:508-549 | Only a teacher who holds the course gets `Done`, and then the table becomes `Graded`. Anyone else is forbidden and nothing changes. |
| Grading.CleanProjectUrl | Controllers/CoursesController.cs:631 | A blank link becomes null. Any other link is trimmed, and the result is non-empty with no white space at either end. |
| Grading.CleanProjectUrlIdempotent | Controllers/CoursesController.cs:631 | Cleaning a cleaned link changes nothing. |
| Grading.StudentUpdatedRow | Controllers/CoursesController.cs:631-648 | The row gets the cleaned link. An accepted seminar file replaces the paper path with one under /uploads/seminars/ and an allowed extension, which fits the 255-character column when the GUID has its 36 characters. No file keeps the paper. Every other field is kept. |
| Uploads.SeminarPathLength | Controllers/CoursesController.cs:657-670 | A stored seminar path built from a 36-character GUID and an allowed extension is at most 59 characters long. |
| Grading.ProjectUrlFits | Models/Enrollment.cs:23-24 | The cleaned project link fits the 255-character column. |
| Grading.UpdateStudentEnrollment | Controllers/CoursesController.cs:612-654 | Students only. `NotFound` exactly when the id is not one of the caller's rows. The seminar error exactly when a file with a refused extension is sent. A link wider than its column makes the save throw, and nothing changes. The GUID is 36 characters long, as `Guid.NewGuid()` gives. Otherwise exactly that row is replaced by `StudentUpdatedRow`. |
| Grading.StudentUpdateTouchesOwnRowOnly | Controllers/CoursesController.cs:621-651 | The update changes no other row and keeps the store's keys. |
| Visibility.CourseIndex | Controllers/CoursesController.cs:24-80 | A teacher or student without a linked record is forbidden. Otherwise the list holds exactly the visible courses: every course for an admin or a user with none of the three roles, a teacher's own courses, a student's enrolled courses. The list is sorted by semester and then title. Each visible course appears as often as in the table, so nothing is duplicated or dropped. |
| Visibility.TeacherListMatchesGradingGate | Controllers/CoursesController.cs:57-59 | A teacher's list names exactly the courses whose grade sheet that teacher may submit. |
| Visibility.StudentListMatchesEnrollments | Controllers/CoursesController.cs:70-71 | A student's list names exactly the courses they have a row of. |
| Visibility.NewestFirst | Controllers/CoursesController.cs:462-466 | Keeps the same years, without duplicates, strictly descending. |
| Visibility.YearColumn | Controllers/CoursesController.cs:462-466 | Returns exactly the years of the kept rows. |
| Visibility.TeacherViewYears | Controllers/CoursesController.cs:462-470 | The list holds the selected year and the years of the course's rows, without duplicates. It is newest first after the head. When a row has the selected year, the whole list is newest first. When no row has it, the selected year is in front. |
| Visibility.StudentYears | Controllers/CoursesController.cs:565-570 | Returns the years of the student's rows of the course, newest first, without duplicates. |
| Visibility.StudentViewYear | Controllers/CoursesController.cs:572-576 | Returns the selected year when the student has it, otherwise the newest. It returns none only when the student has no dated row. |
| Visibility.TeacherView | Controllers/CoursesController.cs:444-506 | The page is shown exactly to a teacher who holds the course. It shows the requested year, or the current one. The rows are exactly the course's rows of that year, each as often as in the table, sorted by index number. |
| Visibility.StudentView | Controllers/CoursesController.cs:551-610 | Forbidden without a linked student. `NotFound` for a missing course. Shown exactly when the caller has a dated row of the course, and then the row shown is the caller's row of the chosen year. |
| Uploads.LowerExtension | Controllers/TeachersController.cs:309 | Returns an empty string or a lower-cased proper extension, of the original extension's length. |
| Uploads.StoredPath | Controllers/CoursesController.cs:657-670 | The path lies under /uploads/{subfolder}/ and ends with the upload's lower-cased extension. |
| Uploads.SeminarAllowed | Controllers/CoursesController.cs:636-638 | A seminar file is accepted when its lower-cased extension is .doc, .docx or .pdf. |
| Uploads.ImageAllowed | Controllers/TeachersController.cs:309-311 | A picture is accepted when its lower-cased extension is .jpg, .jpeg, .png or .webp. |
| Uploads.SaveImage | Controllers/TeachersController.cs:305-322 | Succeeds exactly for .jpg, .jpeg, .png and .webp, in any case. On success the path lies under the sub-folder. Otherwise it throws the fixed message. |
| Uploads.KeptImagePath | Controllers/TeachersController.cs:206-214 | With no picture sent, the stored path is kept. With a picture, the new path is an allowed image under the sub-folder. |
| Uploads.LowerExtensionOfAppended | Controllers/StudentsController.cs:314 | The extension of `stem + ext` is `ext`, lower-cased. |
| Uploads.ImageAllowListAccepts | Controllers/StudentsController.cs:314-317 | Any stem followed by ".PNG" or ".jpeg" is accepted. |
| Uploads.ImageAllowListRejects | Controllers/StudentsController.cs:314-317 | Any stem followed by ".gif", or by ".png" and then ".exe", is refused, and so is any name without a dot. |
| Uploads.SeminarAllowListExamples | Controllers/CoursesController.cs:634-642 | For any stem, the suffixes .Pdf and .docx are accepted. The suffixes .txt and a lone trailing dot are refused. |
| Data.StudentIdIndexUnique | Data/ApplicationDbContext.cs:23-25 | No two students share an index number. |
| Data.CourseStudentIndexUnique | Data/ApplicationDbContext.cs:39-41 | No two enrollments share a (course, student) pair. |
| Data.TeacherRefsResolve | Data/ApplicationDbContext.cs:27-37 | Each of a course's two teacher slots is empty or names an existing teacher. |
| Data.EnrollmentRefsResolve | Data/ApplicationDbContext.cs:43-51 | Every enrollment names an existing course and an existing student. |
| Data.FitsColumn | Models/Student.cs:12-29 | A null or a text no longer than the declared width fits its column. |
| Data.Consistent | Data/ApplicationDbContext.cs:19-51 | The store's rules together: unique keys, the two unique indexes and resolving foreign keys. |
| Data.ApplicationDbContext.SaveNewEnrollments | Controllers/CoursesController.cs:270-274 | `AddRange` plus the save. The batch is stored whole, and the identity counter advances past it, exactly when every constraint still holds. Otherwise nothing changes. The other tables are never touched. |
| Data.ApplicationDbContext.constructor | Data/ApplicationDbContext.cs:19-51 | An empty store satisfies every rule. |
| Data.RemovingReferencedTeacherBreaksRefs | Data/ApplicationDbContext.cs:27-37 | Removing a teacher that a course still names breaks the restricted foreign key. |
| Data.DuplicateStudentIdBreaksIndex | Data/ApplicationDbContext.cs:23-25 | A second student with a taken index number breaks the unique index. |
| Teachers.TeacherMatches | Controllers/TeachersController.cs:74-84 | A teacher passes the four search boxes. A blank box passes everyone, and a null degree or rank fails a non-blank box. |
| Teachers.TeacherIndex | Controllers/TeachersController.cs:69-92 | Admin only. The list holds exactly the teachers passing all four filters (a blank filter passes everyone), each as often as in the table, sorted by last and then first name. |
| Teachers.BlankFiltersListEveryTeacher | Controllers/TeachersController.cs:74-84 | With every filter blank, every teacher is listed. |
| Teachers.NullDegreeFailsDegreeFilter | Controllers/TeachersController.cs:80-81 | A teacher without a degree is never listed under a degree filter. |
| Teachers.EditedTeacher | Controllers/TeachersController.cs:206-214 | The account link is kept, and the picture is kept unless a new one is sent. Every other field comes from the form. |
| Teachers.ReplacingTeacherKeepsConsistent | Data/ApplicationDbContext.cs:27-37 | Replacing a teacher under the same id keeps the store consistent. |
| Teachers.Edit | Controllers/TeachersController.cs:196-231 | Admin only. A mismatched or unknown id gets `NotFound`. A refused picture throws. An invalid form changes nothing. Otherwise exactly that row becomes `EditedTeacher`. |
| Teachers.Detached | Controllers/TeachersController.cs:254-264 | The course table keeps its length. |
| Teachers.DetachedExactly | Controllers/TeachersController.cs:254-264 | Every slot naming the teacher is cleared, and nothing else changes. |
| Teachers.DetachThenRemoveKeepsConsistent | Controllers/TeachersController.cs:254-297 | Detaching the courses keeps the store consistent, and so does removing the teacher afterwards. |
| Teachers.DeleteConfirmed | Controllers/TeachersController.cs:246-300 | Admin only. An unknown id changes nothing. Otherwise the courses become `Detached` and the teacher row is removed. |
| Teachers.DeleteRemovesOnlyTheTeacher | Controllers/TeachersController.cs:296-297 | Exactly the teachers with another id remain. |
| Students.StudentMatches | Controllers/StudentsController.cs:86-97 | A student passes the index and name boxes, and has a row of the chosen course when one is chosen. |
| Students.StudentIndex | Controllers/StudentsController.cs:72-103 | Admin only. The list holds exactly the students passing the index, name and course filters, each as often as in the table, sorted by index number. |
| Students.SearchByIndexFindsStudent | Controllers/StudentsController.cs:86-87 | Searching by a student's own index number lists them. |
| Students.AddingStudentKeepsConsistent | Data/ApplicationDbContext.cs:23-25 | A new student with a fresh id and an untaken index number keeps the store consistent. |
| Students.FitsColumns | Models/Student.cs:12-29 | The index number fits 10 characters, each name 50 and the education level 25. |
| Students.Create | Controllers/StudentsController.cs:122-198 | Admin only. The form, the e-mail, the index number and the picture are checked in the code's order. A value wider than its column makes the save throw, and nothing is stored. A failed account rolls the insert back. Success appends the new student, linked to the account. |
| Students.EditedStudent | Controllers/StudentsController.cs:218-231 | The account link is kept, and the picture is kept unless a new one is sent. Every other field comes from the form. |
| Students.ReplacingStudentSavesIff | Data/ApplicationDbContext.cs:23-25 | Replacing a student keeps the store consistent exactly when no other student holds the new index number. |
| Students.Edit | Controllers/StudentsController.cs:213-248 | Admin only. `NotFound`, the picture error and an invalid form behave as for teachers. Every other admin request reaches the save: it throws exactly when another student holds the index number, and nothing changes. Otherwise exactly that row becomes `EditedStudent`. |
| Students.WithoutStudentRows | Data/ApplicationDbContext.cs:43-51 | The cascade: exactly the rows of other students remain. |
| Students.DeleteStudentKeepsConsistent | Data/ApplicationDbContext.cs:43-51 | Removing a student together with their rows keeps the store consistent. |
| Students.DeleteConfirmed | Controllers/StudentsController.cs:263-306 | Admin only. An unknown id changes nothing. Otherwise the student is removed and their rows cascade. |
| Students.DeleteRemovesOnlyTheStudent | Controllers/StudentsController.cs:302-303 | Exactly the students with another id remain. |
| Ordering.SortBy | Controllers/TeachersController.cs:86-89 | `OrderBy/ThenBy`: the result is a permutation of the input, sorted by the key. |
| Ordering.SortByMembers | Controllers/StudentsController.cs:98-100 | A sorted list has the same members and the same length as its input. |
| Text.Trim | Controllers/CoursesController.cs:430-431 | The result is empty exactly for a blank string. Otherwise it starts and ends with a character that is not white space. |
| Text.TrimSlice | Controllers/CoursesController.cs:430-431 | The result is a slice of the input with only white space before and after it. |
| Text.GetExtension | Controllers/TeachersController.cs:309 | The result is empty or a proper extension (a dot and at least one more character, with no dot or separator after it), and it is a suffix of the path. |
| Text.TrimIdempotent | Controllers/CoursesController.cs:430-431 | Trimming twice equals trimming once. |

## Left out

- **Files.** Writes to and deletions from the file system are not modelled.
  This covers the seminar and picture streams and `DeleteFileIfExists`. The
  GUID of a stored file is a parameter; the seminar update requires it to have
  the 36 characters of `Guid.NewGuid()`.
- **Old picture on edit.** A picture edit deletes the old file before
  `SaveImage` may throw. The model keeps the stored path on every non-`Done`
  outcome and does not capture the lost file.
- **Identity.** The signed-in user is a `Principal` parameter holding roles and
  linked ids. The following become boolean inputs of `Students.Create`:
  - the e-mail lookup;
  - account creation and its password rules;
  - role assignment.

  Deleting the identity user in the two `DeleteConfirmed` actions is not
  modelled.
- **The clock.** `DateTime.Now` becomes a `currentYear` parameter.
- **Concurrency.** `DbUpdateConcurrencyException` and its re-query are not
  modelled. Requests are sequential.
- **Actions outside the core.** These are not part of this model:
  - course create, edit, delete and details;
  - teacher create, details and the two profile actions;
  - student details and the two profile actions;
  - `EnrollmentsController`.
- **View plumbing.** View models and select lists are not modelled.
- **Text.** Every query runs on SQL Server (`UseSqlServer`, Program.cs:12).
  Its collation decides string comparison there, and a default collation
  ignores case. The model compares strings ordinally, character by character.
  This affects:
  - `Contains` in the search boxes;
  - `Ordering.StrLe`, the ordinal key order of the `OrderBy` calls in
    Controllers/TeachersController.cs:86-89, Controllers/StudentsController.cs:98-100
    and Controllers/CoursesController.cs:74-77 and :474;
  - `Lifecycle.InPeriod`, whose semester equality runs in SQL in
    Controllers/CoursesController.cs:240-246;
  - `Students.IndexNumberTaken` (Controllers/StudentsController.cs:139) and
    `Data.StudentIdIndexUnique`: under such a collation, index numbers that
    differ only in case count as taken.

  Case mapping covers ASCII and Cyrillic letters only.
- **Column widths.** `Data.FitsColumn` is checked where a save can meet a
  value the form did not validate: `Students.Create` (its form type has no
  length attributes) and the project link of `Grading.UpdateStudentEnrollment`.
  The seminar path there is proved to fit (`Uploads.SeminarPathLength`). The two `Edit`
  actions validate the same `StringLength` widths on the form first. Enrolling
  stores only the normalised semester name, which fits. The model takes those
  values as fitting.
- **Dates.** `Date` keeps the year, month and day of a `DateTime`
  (`EnrollmentDate`, `HireDate`, `FinishDate`) and drops the time of day,
  which nothing in the core reads.
- **Integer widths.** Key widths (`int`, `long`) are unbounded integers.
- Ordering.SortBy: sortedness and permutation are proved, but stability
  (`OrderBy` keeping the order of equal keys) is not.
- Periods.EligibleStudentIds: the result is a set, so the student order of
  the query does not appear.

## Findings

| source | as written | input that shows it | evidently intended | confidence | as-written member | corrected member |
|---|---|---|---|---|---|---|
| Controllers/CoursesController.cs:240-274 | Students who already have a row of the course are excluded only when that row is for the same year and semester. The unique (course, student) index in Data/ApplicationDbContext.cs:39-41 refuses any second row, so the whole batch throws. | Students 1 and 2 both enrolled in 2022 and are now in semester 4. Student 1 has a failed (grade 5) winter-2022 row of course 1. Enrolling both for summer 2022 plans both, and the save fails for both. | An enrollment batch is saved for the selected students the store can take. A student who already has a row of the course is skipped. | medium, not executed | Lifecycle.EnrollmentPlanCollides | Lifecycle.SafePlanSaves |

The intended repair could also be the other way round: widen the unique index
to include the year and semester, so a failed student can retake the course.
The corrected plan keeps the schema as declared. `EnrollStudentsSafely` is the
action built on the corrected plan.
