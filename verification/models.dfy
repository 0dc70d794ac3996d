/** The four records of the enrollment store, the caller of an action and
    the outcome of an action. Nullable columns are `Option`s; integer keys
    (`int` and `long` in the source) are unbounded integers. */
module Models {
  import opened Seqs

  /** A calendar date; the time of day plays no part in any rule here. */
  datatype Date = Date(year: int, month: int, day: int)

  datatype Student = Student(
    id: int,
    studentId: string,              // the index number, e.g. "2022001"
    firstName: string,
    lastName: string,
    enrollmentDate: Option<Date>,
    acquiredCredits: Option<int>,
    currentSemester: Option<int>,
    educationLevel: Option<string>,
    profileImagePath: Option<string>,
    applicationUserId: Option<string>)

  datatype Teacher = Teacher(
    id: int,
    firstName: string,
    lastName: string,
    degree: Option<string>,
    academicRank: Option<string>,
    officeNumber: Option<string>,
    hireDate: Option<Date>,
    profileImagePath: Option<string>,
    applicationUserId: Option<string>)

  datatype Course = Course(
    id: int,
    title: string,
    credits: int,
    semester: int,
    programme: Option<string>,
    educationLevel: Option<string>,
    firstTeacherId: Option<int>,
    secondTeacherId: Option<int>)
  {
    /** The teacher holds one of the course's two teacher slots. */
    predicate TaughtBy(teacherId: int) {
      firstTeacherId == Some(teacherId) || secondTeacherId == Some(teacherId)
    }
  }

  datatype Enrollment = Enrollment(
    id: int,
    courseId: int,
    studentId: int,                 // the student's row id, not the index number
    semester: Option<string>,
    year: Option<int>,
    grade: Option<int>,
    seminarUrl: Option<string>,
    projectUrl: Option<string>,
    examPoints: Option<int>,
    seminarPoints: Option<int>,
    projectPoints: Option<int>,
    additionalPoints: Option<int>,
    finishDate: Option<Date>)
  {
    /** A row without a finish date is active. */
    predicate IsActive() {
      finishDate.None?
    }
  }

  datatype Role = AdminRole | TeacherRole | StudentRole

  /** The signed-in user: roles and the teacher or student the account is linked to. */
  datatype Principal = Principal(roles: set<Role>, teacherId: Option<int>, studentId: Option<int>)

  /** An uploaded file: its client-side name and its length in bytes. */
  datatype Upload = Upload(fileName: string, length: int)

  /** The outcome of a step that may fail with a message. */
  datatype Result<T> = Success(value: T) | Failure(error: string)

  /** What an action answers. Every redirect after a completed action is `Done`;
      `Forbidden` covers both `Forbid()` and the redirect home of a caller
      without access; `NotFound` covers a 404 and the redirect away when the
      row asked for does not exist; `Rejected` is a form shown again with an error;
      `InvalidForm` a form shown again with the validation or account errors
      of another component; `Thrown` an exception that escapes the action. */
  datatype ActionResult =
    | Done
    | NotFound
    | Forbidden
    | Rejected(message: string)
    | InvalidForm
    | Thrown(message: string)

  /** A page, or where the caller is sent instead. */
  datatype Page<T> = Shown(content: T) | Redirected(outcome: ActionResult)
}
