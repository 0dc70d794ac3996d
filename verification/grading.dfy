/** Grading: the teacher's sheet of points and grades for one course and year,
    and the student's own update of an enrollment (project link and seminar
    paper). Both change fields of existing rows and never a key. */
module Grading {
  import opened Seqs
  import opened Text
  import opened Models
  import opened Data
  import opened Uploads

  /** Two tables with the same rows up to non-key fields: same length, and row
      by row the same id, course and student. */
  predicate SameKeys(before: seq<Enrollment>, after: seq<Enrollment>) {
    && |after| == |before|
    && forall i :: 0 <= i < |before| ==>
         after[i].id == before[i].id && after[i].courseId == before[i].courseId && after[i].studentId == before[i].studentId
  }

  /** Updating non-key fields keeps every constraint of the store. */
  lemma SameKeysKeepConsistent(students: seq<Student>, teachers: seq<Teacher>, courses: seq<Course>,
                               before: seq<Enrollment>, after: seq<Enrollment>, next: int)
    requires Consistent(students, teachers, courses, before)
    requires forall e :: e in before ==> e.id < next
    requires SameKeys(before, after)
    ensures Consistent(students, teachers, courses, after)
    ensures forall e :: e in after ==> e.id < next
  {
    forall e | e in after
      ensures e.id < next && HasCourse(courses, e.courseId) && HasStudent(students, e.studentId)
    {
      var i :| 0 <= i < |after| && after[i] == e;
      assert before[i] in before;
    }
  }

  // ---------------------------------------------------------------------------
  // The teacher's grade sheet (`UpdateEnrollments`)
  // ---------------------------------------------------------------------------

  /** One submitted row of the sheet: the enrollment it is for and the values typed in. */
  datatype GradeRow = GradeRow(
    enrollmentId: int,
    grade: Option<int>,
    examPoints: Option<int>,
    seminarPoints: Option<int>,
    projectPoints: Option<int>,
    additionalPoints: Option<int>,
    finishDate: Option<Date>)

  predicate Submits(sheet: seq<GradeRow>, id: int) {
    exists row :: row in sheet && row.enrollmentId == id
  }

  /** `vm.Rows.First(r => r.EnrollmentId == e.Id)`: the first submitted row for
      the enrollment; a later duplicate is ignored. */
  function FirstRowFor(sheet: seq<GradeRow>, id: int): (r: GradeRow)
    requires Submits(sheet, id)
    ensures r in sheet && r.enrollmentId == id
    ensures exists i :: 0 <= i < |sheet| && sheet[i] == r && forall j :: 0 <= j < i ==> sheet[j].enrollmentId != id
  {
    var found := FindIndex(sheet, (row: GradeRow) => row.enrollmentId == id);
    if found.Some? then sheet[found.value]
    else
      assert false;
      GradeRow(id, None, None, None, None, None, None)
  }

  /** A row the sheet may touch: of the course, of the selected year, and submitted. */
  predicate OnSheet(e: Enrollment, courseId: int, year: int, sheet: seq<GradeRow>) {
    e.courseId == courseId && e.year == Some(year) && Submits(sheet, e.id)
  }

  /** A row after the sheet is saved: an active row on the sheet takes the four
      point fields, the grade and the finish date from its submitted row; every
      other row, and every other field, is kept. */
  function GradedRow(e: Enrollment, courseId: int, year: int, sheet: seq<GradeRow>): Enrollment {
    if OnSheet(e, courseId, year, sheet) && e.IsActive() then
      var row := FirstRowFor(sheet, e.id);
      e.(examPoints := row.examPoints, seminarPoints := row.seminarPoints, projectPoints := row.projectPoints,
         additionalPoints := row.additionalPoints, grade := row.grade, finishDate := row.finishDate)
    else e
  }

  function Graded(enrollments: seq<Enrollment>, courseId: int, year: int, sheet: seq<GradeRow>): (r: seq<Enrollment>)
    ensures SameKeys(enrollments, r)
  {
    seq(|enrollments|, i requires 0 <= i < |enrollments| => GradedRow(enrollments[i], courseId, year, sheet))
  }

  /** A finished row is frozen, and so is every row not on the sheet; an active
      row on the sheet takes its submitted values, nulls included, and keeps its
      period, links and keys. */
  lemma GradedExactly(enrollments: seq<Enrollment>, courseId: int, year: int, sheet: seq<GradeRow>)
    ensures var r := Graded(enrollments, courseId, year, sheet);
      forall i :: 0 <= i < |enrollments| ==>
        && (!enrollments[i].IsActive() || !OnSheet(enrollments[i], courseId, year, sheet) ==> r[i] == enrollments[i])
        && (enrollments[i].IsActive() && OnSheet(enrollments[i], courseId, year, sheet) ==>
              var row := FirstRowFor(sheet, enrollments[i].id);
              && r[i].grade == row.grade && r[i].finishDate == row.finishDate
              && r[i].examPoints == row.examPoints && r[i].seminarPoints == row.seminarPoints
              && r[i].projectPoints == row.projectPoints && r[i].additionalPoints == row.additionalPoints
              && r[i].semester == enrollments[i].semester && r[i].year == enrollments[i].year
              && r[i].seminarUrl == enrollments[i].seminarUrl && r[i].projectUrl == enrollments[i].projectUrl)
  {
  }

  /** Saving the same sheet twice is saving it once: a row the first save
      finished is frozen for the second, and an active one gets the same values. */
  lemma {:induction false} GradingIdempotent(enrollments: seq<Enrollment>, courseId: int, year: int, sheet: seq<GradeRow>)
    ensures var once := Graded(enrollments, courseId, year, sheet);
            Graded(once, courseId, year, sheet) == once
  {
    var once := Graded(enrollments, courseId, year, sheet);
    var twice := Graded(once, courseId, year, sheet);
    forall i | 0 <= i < |once| ensures twice[i] == once[i] {
      var e := enrollments[i];
      if OnSheet(e, courseId, year, sheet) && e.IsActive() {
        assert OnSheet(once[i], courseId, year, sheet);
      } else {
        assert once[i] == e;
      }
    }
  }

  /** Teacher only (`[Authorize(Roles = "Teacher")]`). `UpdateEnrollments`
      saves a grade sheet when the caller's linked teacher holds a slot of the
      course; otherwise it sends the caller home and changes nothing. */
  method UpdateEnrollments(db: ApplicationDbContext, caller: Principal, courseId: int, selectedYear: int,
                           sheet: seq<GradeRow>) returns (result: ActionResult)
    requires db.Valid()
    modifies db
    ensures db.Valid()
    ensures db.students == old(db.students) && db.teachers == old(db.teachers) && db.courses == old(db.courses)
    ensures db.nextStudentId == old(db.nextStudentId) && db.nextEnrollmentId == old(db.nextEnrollmentId)
    ensures var owner := TeacherRole in caller.roles && caller.teacherId.Some?
                         && HoldsCourse(old(db.courses), courseId, caller.teacherId.value);
      if owner then result == Done && db.enrollments == Graded(old(db.enrollments), courseId, selectedYear, sheet)
      else result == Forbidden && db.enrollments == old(db.enrollments)
  {
    if TeacherRole !in caller.roles || caller.teacherId.None? {
      return Forbidden;
    }
    var teacherId := caller.teacherId.value;
    var isMine := HoldsCourse(db.courses, courseId, teacherId);
    if !isMine {
      return Forbidden;
    }
    var rows := db.enrollments;
    var i := 0;
    while i < |rows|
      invariant 0 <= i <= |rows| == |db.enrollments|
      invariant forall k :: 0 <= k < i ==> rows[k] == GradedRow(db.enrollments[k], courseId, selectedYear, sheet)
      invariant forall k :: i <= k < |rows| ==> rows[k] == db.enrollments[k]
    {
      var e := rows[i];
      if e.courseId == courseId && e.year == Some(selectedYear) && Submits(sheet, e.id) && e.finishDate.None? {
        var row := FirstRowFor(sheet, e.id);
        rows := rows[i := e.(examPoints := row.examPoints, seminarPoints := row.seminarPoints,
                             projectPoints := row.projectPoints, additionalPoints := row.additionalPoints,
                             grade := row.grade, finishDate := row.finishDate)];
      }
      assert rows[i] == GradedRow(db.enrollments[i], courseId, selectedYear, sheet);
      i := i + 1;
    }
    assert rows == Graded(db.enrollments, courseId, selectedYear, sheet);
    SameKeysKeepConsistent(db.students, db.teachers, db.courses, db.enrollments, rows, db.nextEnrollmentId);
    db.enrollments := rows;
    return Done;
  }

  // ---------------------------------------------------------------------------
  // The student's own update (`UpdateStudentEnrollment`)
  // ---------------------------------------------------------------------------

  /** The submitted project link as stored: trimmed, and null when blank. */
  function CleanProjectUrl(url: Option<string>): (r: Option<string>)
    ensures r.None? <==> IsNullOrWhiteSpace(url)
    ensures r.Some? ==> r.value == Trim(url.value) && |r.value| > 0
    ensures r.Some? ==> !IsWhiteSpace(r.value[0]) && !IsWhiteSpace(r.value[|r.value| - 1])
  {
    if IsNullOrWhiteSpace(url) then None else Some(Trim(url.value))
  }

  /** Cleaning a cleaned link changes nothing. */
  lemma CleanProjectUrlIdempotent(url: Option<string>)
    ensures CleanProjectUrl(CleanProjectUrl(url)) == CleanProjectUrl(url)
  {
    if !IsNullOrWhiteSpace(url) {
      TrimIdempotent(url.value);
    }
  }

  /** The upload is refused: a file was sent and its extension is not allowed. */
  predicate SeminarRefused(file: Option<Upload>) {
    HasFile(file) && !SeminarAllowed(file.value.fileName)
  }

  /** The student's row after an accepted update: the cleaned project link and,
      when a file was sent, the path of the stored paper. */
  function StudentUpdatedRow(e: Enrollment, projectUrl: Option<string>, file: Option<Upload>, guid: string): (r: Enrollment)
    requires !SeminarRefused(file)
    ensures r.projectUrl == CleanProjectUrl(projectUrl)
    ensures !HasFile(file) ==> r.seminarUrl == e.seminarUrl
    ensures HasFile(file) ==> r.seminarUrl.Some? && UploadFolder("seminars") <= r.seminarUrl.value
                              && GetExtension(r.seminarUrl.value) in SeminarExtensions
    ensures HasFile(file) && |guid| == GuidLength ==> FitsColumn(r.seminarUrl, 255)
    ensures r.(projectUrl := e.projectUrl, seminarUrl := e.seminarUrl) == e
  {
    assert HasFile(file) && |guid| == GuidLength ==> |StoredPath("seminars", guid, file.value.fileName)| <= 59 by {
      if HasFile(file) && |guid| == GuidLength {
        SeminarPathLength(guid, file.value.fileName);
      }
    }
    var seminar := if HasFile(file) then Some(StoredPath("seminars", guid, file.value.fileName)) else e.seminarUrl;
    e.(projectUrl := CleanProjectUrl(projectUrl), seminarUrl := seminar)
  }

  /** The cleaned project link fits its 255-character column. The action checks
      no model state, so a longer link reaches the save. The stored paper's path
      always fits (`StudentUpdatedRow`). */
  predicate ProjectUrlFits(projectUrl: Option<string>) {
    FitsColumn(CleanProjectUrl(projectUrl), 255)
  }

  /** The student's own row: the row with the id whose student is the caller's.
      With unique keys there is at most one. */
  predicate OwnRow(e: Enrollment, enrollmentId: int, studentId: int) {
    e.id == enrollmentId && e.studentId == studentId
  }

  /** Student only. `UpdateStudentEnrollment` changes the caller's own row and
      no other: the project link, and the seminar paper when one is sent. A
      refused extension returns before the save, so nothing is stored, not even
      the new link; so does a link wider than its column, which makes the save
      throw. The paper's path, built from a fresh GUID, always fits. A finished
      row may still be updated. */
  method UpdateStudentEnrollment(db: ApplicationDbContext, caller: Principal, enrollmentId: int,
                                 projectUrl: Option<string>, seminarFile: Option<Upload>, guid: string)
    returns (result: ActionResult)
    requires db.Valid()
    requires |guid| == GuidLength
    modifies db
    ensures db.Valid()
    ensures db.students == old(db.students) && db.teachers == old(db.teachers) && db.courses == old(db.courses)
    ensures db.nextStudentId == old(db.nextStudentId) && db.nextEnrollmentId == old(db.nextEnrollmentId)
    ensures StudentRole !in caller.roles || caller.studentId.None? ==> result == Forbidden
    ensures StudentRole in caller.roles && caller.studentId.Some? ==>
      && (result == NotFound <==> forall e :: e in old(db.enrollments) ==> !OwnRow(e, enrollmentId, caller.studentId.value))
      && (result == Rejected(SeminarError) <==> result != NotFound && SeminarRefused(seminarFile))
      && (result == Thrown(SaveError) <==>
            result != NotFound && !SeminarRefused(seminarFile) && !ProjectUrlFits(projectUrl))
      && (result == Done <==>
            result != NotFound && !SeminarRefused(seminarFile) && ProjectUrlFits(projectUrl))
    ensures result != Done ==> db.enrollments == old(db.enrollments)
    ensures result == Done ==> exists k :: (
      && 0 <= k < |old(db.enrollments)|
      && OwnRow(old(db.enrollments)[k], enrollmentId, caller.studentId.value)
      && !SeminarRefused(seminarFile)
      && ProjectUrlFits(projectUrl)
      && db.enrollments == old(db.enrollments)[k := StudentUpdatedRow(old(db.enrollments)[k], projectUrl, seminarFile, guid)])
  {
    if StudentRole !in caller.roles || caller.studentId.None? {
      return Forbidden;
    }
    var studentId := caller.studentId.value;
    var found := FindIndex(db.enrollments, (e: Enrollment) => OwnRow(e, enrollmentId, studentId));
    if found.None? {
      forall e | e in db.enrollments ensures !OwnRow(e, enrollmentId, studentId) {
        var i :| 0 <= i < |db.enrollments| && db.enrollments[i] == e;
      }
      return NotFound;
    }
    var k := found.value;
    if SeminarRefused(seminarFile) {
      return Rejected(SeminarError);
    }
    if !ProjectUrlFits(projectUrl) {
      return Thrown(SaveError);
    }
    var updated := StudentUpdatedRow(db.enrollments[k], projectUrl, seminarFile, guid);
    var rows := db.enrollments[k := updated];
    SameKeysKeepConsistent(db.students, db.teachers, db.courses, db.enrollments, rows, db.nextEnrollmentId);
    db.enrollments := rows;
    return Done;
  }

  /** Only the caller's own row can change: a row of another student, or
      with another id, is the same after any update. */
  lemma StudentUpdateTouchesOwnRowOnly(enrollments: seq<Enrollment>, k: nat, enrollmentId: int, studentId: int,
                                       projectUrl: Option<string>, file: Option<Upload>, guid: string)
    requires k < |enrollments| && OwnRow(enrollments[k], enrollmentId, studentId)
    requires EnrollmentKeysUnique(enrollments)
    requires !SeminarRefused(file)
    ensures var after := enrollments[k := StudentUpdatedRow(enrollments[k], projectUrl, file, guid)];
      forall i :: 0 <= i < |enrollments| && !OwnRow(enrollments[i], enrollmentId, studentId) ==> after[i] == enrollments[i]
  {
  }
}
