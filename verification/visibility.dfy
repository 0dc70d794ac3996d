/** What a signed-in user is shown: the role-scoped course list, and the year
    selection of the teacher's and the student's course pages. */
module Visibility {
  import opened Seqs
  import opened Models
  import opened Data
  import opened Ordering

  // ---------------------------------------------------------------------------
  // The course list (`Index`)
  // ---------------------------------------------------------------------------

  /** The branch `Index` takes is chosen by the first role held, in the order
      Admin, Teacher, Student; a teacher or student branch without a linked
      record is forbidden. */
  predicate LinkMissing(caller: Principal) {
    && AdminRole !in caller.roles
    && (TeacherRole in caller.roles ==> caller.teacherId.None?)
    && (TeacherRole !in caller.roles ==> StudentRole in caller.roles && caller.studentId.None?)
  }

  /** The student has a row of the course, from any period. */
  predicate TakesCourse(enrollments: seq<Enrollment>, courseId: int, studentId: int) {
    exists e :: e in enrollments && e.courseId == courseId && e.studentId == studentId
  }

  /** Whether the course is in the caller's list: every course for an admin or a
      user with none of the three roles, a teacher's own courses, a student's
      enrolled courses. */
  predicate Sees(caller: Principal, enrollments: seq<Enrollment>, c: Course)
    requires !LinkMissing(caller)
  {
    if AdminRole in caller.roles then true
    else if TeacherRole in caller.roles then c.TaughtBy(caller.teacherId.value)
    else if StudentRole in caller.roles then TakesCourse(enrollments, c.id, caller.studentId.value)
    else true
  }

  function CourseOrder(c: Course): SortKey {
    SortKey(c.semester, c.title, "")
  }

  /** `Index`: the courses the caller may see, by semester and then title. */
  function CourseIndex(caller: Principal, courses: seq<Course>, enrollments: seq<Enrollment>): (r: Page<seq<Course>>)
    ensures r.Redirected? <==> LinkMissing(caller)
    ensures r.Redirected? ==> r.outcome == Forbidden
    ensures r.Shown? ==> forall c :: c in r.content <==> c in courses && Sees(caller, enrollments, c)
    ensures r.Shown? ==> SortedBy(r.content, CourseOrder)
    ensures r.Shown? ==> |r.content| <= |courses|
    ensures r.Shown? ==> forall c :: multiset(r.content)[c] == if Sees(caller, enrollments, c) then multiset(courses)[c] else 0
  {
    if LinkMissing(caller) then Redirected(Forbidden)
    else
      var sees := c => Sees(caller, enrollments, c);
      var visible := Filter(courses, sees);
      FilterCounts(courses, sees);
      SortByMembers(visible, CourseOrder);
      var sorted := SortBy(visible, CourseOrder);
      assert |sorted| == |multiset(sorted)| == |multiset(visible)| == |visible|;
      Shown(sorted)
  }

  /** A teacher's list names exactly the courses the grade sheet accepts from
      that teacher. */
  lemma TeacherListMatchesGradingGate(caller: Principal, courses: seq<Course>, enrollments: seq<Enrollment>, courseId: int)
    requires AdminRole !in caller.roles && TeacherRole in caller.roles && caller.teacherId.Some?
    ensures var r := CourseIndex(caller, courses, enrollments);
            r.Shown? && ((exists c :: c in r.content && c.id == courseId) <==> HoldsCourse(courses, courseId, caller.teacherId.value))
  {
  }

  /** A student's list names exactly the courses the student has a row of. */
  lemma StudentListMatchesEnrollments(caller: Principal, courses: seq<Course>, enrollments: seq<Enrollment>, c: Course)
    requires AdminRole !in caller.roles && TeacherRole !in caller.roles && StudentRole in caller.roles
    requires caller.studentId.Some? && c in courses
    ensures var r := CourseIndex(caller, courses, enrollments);
            r.Shown? && (c in r.content <==> TakesCourse(enrollments, c.id, caller.studentId.value))
  {
  }

  // ---------------------------------------------------------------------------
  // Year lists
  // ---------------------------------------------------------------------------

  /** Newest first. */
  predicate Descending(ys: seq<int>) {
    forall i, j :: 0 <= i < j < |ys| ==> ys[i] > ys[j]
  }

  function YearOrder(y: int): SortKey {
    SortKey(-y, "", "")
  }

  /** `.Distinct().OrderByDescending(y => y)`. */
  function NewestFirst(ys: seq<int>): (r: seq<int>)
    ensures forall y :: y in r <==> y in ys
    ensures NoDups(r) && Descending(r)
  {
    var d := Distinct(ys);
    var r := SortBy(d, YearOrder);
    SortByMembers(d, YearOrder);
    NoDupsPermutation(d, r);
    assert Descending(r) by {
      forall i, j | 0 <= i < j < |r| ensures r[i] > r[j] {
        assert KeyLe(YearOrder(r[i]), YearOrder(r[j]));
      }
    }
    r
  }

  /** The years of the rows picked out by `keep` that have one, in row order. */
  function YearColumn(enrollments: seq<Enrollment>, keep: Enrollment -> bool): (r: seq<int>)
    ensures forall y :: y in r <==> exists e :: e in enrollments && keep(e) && e.year == Some(y)
  {
    if |enrollments| == 0 then []
    else
      var e := enrollments[0];
      var rest := YearColumn(enrollments[1..], keep);
      assert forall x :: x in enrollments <==> x == e || x in enrollments[1..];
      if keep(e) && e.year.Some? then [e.year.value] + rest else rest
  }

  /** The years of the course that have rows, as `TeacherView` lists them: newest
      first, with the selected year put in front when no row has it. */
  function TeacherViewYears(enrollments: seq<Enrollment>, courseId: int, selectedYear: int): (r: seq<int>)
    ensures selectedYear in r && NoDups(r)
    ensures forall y :: y in r <==> y == selectedYear || exists e :: e in enrollments && e.courseId == courseId && e.year == Some(y)
    ensures Descending(r[1..])
    ensures r[0] != selectedYear ==> Descending(r)
    ensures (exists e :: e in enrollments && e.courseId == courseId && e.year == Some(selectedYear)) ==> Descending(r)
    ensures (forall e :: e in enrollments && e.courseId == courseId ==> e.year != Some(selectedYear)) ==> r[0] == selectedYear
  {
    var years := NewestFirst(YearColumn(enrollments, (e: Enrollment) => e.courseId == courseId));
    if selectedYear in years then
      assert Descending(years[1..]) by {
        forall i, j | 0 <= i < j < |years[1..]| ensures years[1..][i] > years[1..][j] {
          assert years[1..][i] == years[i + 1] && years[1..][j] == years[j + 1];
        }
      }
      years
    else
      NoDupsCons(selectedYear, years);
      assert ([selectedYear] + years)[1..] == years;
      [selectedYear] + years
  }

  /** The years of the student's rows of the course, newest first. */
  function StudentYears(enrollments: seq<Enrollment>, courseId: int, studentId: int): (r: seq<int>)
    ensures NoDups(r) && Descending(r)
    ensures forall y :: y in r <==> exists e :: e in enrollments && e.courseId == courseId && e.studentId == studentId && e.year == Some(y)
  {
    NewestFirst(YearColumn(enrollments, (e: Enrollment) => e.courseId == courseId && e.studentId == studentId))
  }

  /** The year `StudentView` shows: the selected one when the student has a row
      in it, otherwise the newest; none when the student has no dated row. */
  function StudentViewYear(years: seq<int>, selectedYear: int): (r: Option<int>)
    requires Descending(years)
    ensures r.None? <==> |years| == 0
    ensures r.Some? ==> r.value in years
    ensures selectedYear in years ==> r == Some(selectedYear)
    ensures selectedYear !in years && r.Some? ==> forall y :: y in years ==> y <= r.value
  {
    if |years| == 0 then None
    else if selectedYear in years then Some(selectedYear)
    else Some(years[0])
  }

  // ---------------------------------------------------------------------------
  // The two course pages
  // ---------------------------------------------------------------------------

  /** The teacher's page: the year shown, the year list and the rows of the year. */
  datatype TeacherPage = TeacherPage(selectedYear: int, years: seq<int>, rows: seq<Enrollment>)

  /** The index number of the student with the row id ("" when there is none,
      which the foreign key rules out). */
  function IndexNumberOf(students: seq<Student>, id: int): string {
    var k := FindIndex(students, (s: Student) => s.id == id);
    if k.Some? then students[k.value].studentId else ""
  }

  /** `OrderBy(e => e.Student.StudentId)`. */
  function RowOrder(students: seq<Student>): Enrollment -> SortKey {
    (e: Enrollment) => SortKey(0, IndexNumberOf(students, e.studentId), "")
  }

  /** Teacher only. `TeacherView`: a course the caller's linked teacher holds,
      for the requested year or else the current one; the rows of that year by
      the students' index numbers. Anyone else is sent home. */
  function TeacherView(caller: Principal, students: seq<Student>, courses: seq<Course>, enrollments: seq<Enrollment>,
                       courseId: int, year: Option<int>, currentYear: int): (r: Page<TeacherPage>)
    ensures r.Shown? <==> TeacherRole in caller.roles && caller.teacherId.Some?
                          && HoldsCourse(courses, courseId, caller.teacherId.value)
    ensures r.Redirected? ==> r.outcome == Forbidden
    ensures r.Shown? ==> (r.content.selectedYear == year.GetOr(currentYear)
                          && r.content.years == TeacherViewYears(enrollments, courseId, r.content.selectedYear))
    ensures r.Shown? ==> forall e :: e in r.content.rows <==>
                           e in enrollments && e.courseId == courseId && e.year == Some(r.content.selectedYear)
    ensures r.Shown? ==> SortedBy(r.content.rows, RowOrder(students))
    ensures r.Shown? ==> forall e :: multiset(r.content.rows)[e] ==
                            if e.courseId == courseId && e.year == Some(r.content.selectedYear) then multiset(enrollments)[e] else 0
  {
    if TeacherRole !in caller.roles || caller.teacherId.None? then Redirected(Forbidden)
    else if !HoldsCourse(courses, courseId, caller.teacherId.value) then Redirected(Forbidden)
    else
      var selectedYear := year.GetOr(currentYear);
      var inYear := (e: Enrollment) => e.courseId == courseId && e.year == Some(selectedYear);
      var ofYear := Filter(enrollments, inYear);
      FilterCounts(enrollments, inYear);
      SortByMembers(ofYear, RowOrder(students));
      Shown(TeacherPage(selectedYear, TeacherViewYears(enrollments, courseId, selectedYear), SortBy(ofYear, RowOrder(students))))
  }

  /** The student's page: the year shown, the year list and the row of that year. */
  datatype StudentPage = StudentPage(selectedYear: int, years: seq<int>, enrollment: Enrollment)

  /** Student only. `StudentView`: the caller's own row of the course for the
      year picked by `StudentViewYear`. A caller without a linked student, or a
      course that does not exist, is sent home; a student without a dated row of
      the course is sent back to the course list. */
  function StudentView(caller: Principal, courses: seq<Course>, enrollments: seq<Enrollment>,
                       courseId: int, year: Option<int>, currentYear: int): (r: Page<StudentPage>)
    ensures StudentRole !in caller.roles || caller.studentId.None? ==> r == Redirected(Forbidden)
    ensures StudentRole in caller.roles && caller.studentId.Some? ==>
      && (!HasCourse(courses, courseId) ==> r == Redirected(NotFound))
      && (HasCourse(courses, courseId) ==>
            (r.Shown? <==> exists e :: e in enrollments && e.courseId == courseId
                                       && e.studentId == caller.studentId.value && e.year.Some?))
    ensures r.Shown? ==>
      && r.content.years == StudentYears(enrollments, courseId, caller.studentId.value)
      && Some(r.content.selectedYear) == StudentViewYear(r.content.years, year.GetOr(currentYear))
      && r.content.enrollment in enrollments
      && r.content.enrollment.courseId == courseId
      && r.content.enrollment.studentId == caller.studentId.value
      && r.content.enrollment.year == Some(r.content.selectedYear)
  {
    if StudentRole !in caller.roles || caller.studentId.None? then Redirected(Forbidden)
    else if !HasCourse(courses, courseId) then Redirected(NotFound)
    else
      var studentId := caller.studentId.value;
      var years := StudentYears(enrollments, courseId, studentId);
      var chosen := StudentViewYear(years, year.GetOr(currentYear));
      if chosen.None? then Redirected(NotFound)
      else
        var ofYear := (e: Enrollment) => e.courseId == courseId && e.studentId == studentId && e.year == chosen;
        var k := FindIndex(enrollments, ofYear);
        // The `e == null` redirect cannot happen: the chosen year came from a row.
        assert k.Some? by {
          var e :| e in enrollments && e.courseId == courseId && e.studentId == studentId && e.year == chosen;
          var i :| 0 <= i < |enrollments| && enrollments[i] == e;
          assert ofYear(enrollments[i]);
        }
        Shown(StudentPage(chosen.value, years, enrollments[k.value]))
  }
}
