/** The admin's batch operations on a course's enrollments for one period
    (a year and a semester): enrolling a selection of students, and
    deactivating a selection of enrollments. */
module Lifecycle {
  import opened Seqs
  import opened Models
  import opened Data
  import opened Periods

  /** Students with a passing grade (6 or more) in the course; a null grade does not pass. */
  function PassedStudentIds(enrollments: seq<Enrollment>, courseId: int): set<int> {
    set e | e in enrollments && e.courseId == courseId && e.grade.Some? && e.grade.value >= 6 :: e.studentId
  }

  /** A row of the course for the period. The stored semester text must equal
      the normalised name exactly. */
  predicate InPeriod(e: Enrollment, courseId: int, year: int, semester: string) {
    e.courseId == courseId && e.year == Some(year) && e.semester == Some(semester)
  }

  /** Students who already have a row of the course for the period. */
  function EnrolledForPeriod(enrollments: seq<Enrollment>, courseId: int, year: int, semester: string): set<int> {
    set e | e in enrollments && InPeriod(e, courseId, year, semester) :: e.studentId
  }

  /** Students who have any row of the course, whatever its period. */
  function EnrolledInCourse(enrollments: seq<Enrollment>, courseId: int): set<int> {
    set e | e in enrollments && e.courseId == courseId :: e.studentId
  }

  /** The students `EnrollStudents` inserts, in the order they were first selected:
      the selected students eligible for the period, minus those who passed the
      course and those already enrolled in it for this period. */
  function EnrollmentPlan(students: seq<Student>, enrollments: seq<Enrollment>, courseId: int,
                          year: int, semester: Option<string>, selected: seq<int>): (r: seq<int>)
    ensures NoDups(r)
    ensures forall id :: id in r <==>
      && id in selected
      && id in EligibleStudentIds(students, year, semester)
      && id !in PassedStudentIds(enrollments, courseId)
      && id !in EnrolledForPeriod(enrollments, courseId, year, NormalizeSemester(semester))
    ensures |selected| == 0 ==> r == []
  {
    var sem := NormalizeSemester(semester);
    if |selected| == 0 then []
    else
      var eligible := EligibleStudentIds(students, year, Some(sem));
      EligibilityIgnoresRenormalising(students, year, semester);
      var passed := PassedStudentIds(enrollments, courseId);
      var filtered := Filter(Distinct(selected), id => id in eligible && id !in passed);
      if |filtered| == 0 then []
      else Except(filtered, EnrolledForPeriod(enrollments, courseId, year, sem))
  }

  /** A fresh enrollment: course, student and period set, everything else null. */
  function NewEnrollment(id: int, courseId: int, studentId: int, year: int, semester: string): Enrollment {
    Enrollment(id, courseId, studentId, Some(semester), Some(year), None, None, None, None, None, None, None, None)
  }

  /** A student meeting the four conditions is in the plan. */
  lemma Planned(students: seq<Student>, enrollments: seq<Enrollment>, courseId: int, year: int,
                semester: Option<string>, selected: seq<int>, id: int)
    requires id in selected && id in EligibleStudentIds(students, year, semester)
    requires id !in PassedStudentIds(enrollments, courseId)
    requires id !in EnrolledForPeriod(enrollments, courseId, year, NormalizeSemester(semester))
    ensures id in EnrollmentPlan(students, enrollments, courseId, year, semester, selected)
  {
  }

  /** The rows `AddRange` inserts, one per planned student, numbered by the identity column. */
  function NewRows(plan: seq<int>, courseId: int, year: int, semester: string, firstId: int): (r: seq<Enrollment>)
    ensures |r| == |plan|
  {
    seq(|plan|, i requires 0 <= i < |plan| => NewEnrollment(firstId + i, courseId, plan[i], year, semester))
  }

  /** Each inserted row is a blank enrollment of the course for the period, for
      its planned student, with a fresh id; so the batch holds one row per student. */
  lemma NewRowsAreBlank(plan: seq<int>, courseId: int, year: int, semester: string, firstId: int)
    ensures forall e :: e in NewRows(plan, courseId, year, semester, firstId) ==>
      && InPeriod(e, courseId, year, semester)
      && e.studentId in plan
      && firstId <= e.id < firstId + |plan|
      && e.grade.None? && e.finishDate.None? && e.seminarUrl.None? && e.projectUrl.None?
      && e.examPoints.None? && e.seminarPoints.None? && e.projectPoints.None? && e.additionalPoints.None?
    ensures forall id :: id in plan ==> exists e :: e in NewRows(plan, courseId, year, semester, firstId) && e.studentId == id
  {
    var rows := NewRows(plan, courseId, year, semester, firstId);
    forall id | id in plan
      ensures exists e :: e in rows && e.studentId == id
    {
      var i :| 0 <= i < |plan| && plan[i] == id;
      assert rows[i].studentId == id;
    }
  }

  /** The inserted rows take consecutive ids from the identity counter. */
  lemma NewRowsNumbered(plan: seq<int>, courseId: int, year: int, semester: string, firstId: int)
    ensures var rows := NewRows(plan, courseId, year, semester, firstId);
            forall i :: 0 <= i < |rows| ==> rows[i].id == firstId + i
  {
  }

  /** Rows numbered from a fresh identity value keep the primary key unique. */
  lemma {:induction false} NewRowsKeepKeys(enrollments: seq<Enrollment>, rows: seq<Enrollment>, plan: seq<int>,
                                           courseId: int, year: int, semester: string, next: int)
    requires EnrollmentKeysUnique(enrollments)
    requires forall e :: e in enrollments ==> e.id < next
    requires rows == NewRows(plan, courseId, year, semester, next)
    ensures EnrollmentKeysUnique(enrollments + rows)
  {
    var all := enrollments + rows;
    forall i, j | 0 <= i < j < |all| ensures all[i].id != all[j].id {
      if j >= |enrollments| {
        assert all[j] == rows[j - |enrollments|];
        if i < |enrollments| {
          assert all[i] in enrollments;
        } else {
          assert all[i] == rows[i - |enrollments|];
        }
      }
    }
  }

  /** The new rows keep the (CourseId, StudentId) index unique exactly when no
      planned student already has a row of the course. */
  lemma {:induction false} NewRowsPairIndex(enrollments: seq<Enrollment>, rows: seq<Enrollment>, plan: seq<int>,
                                            courseId: int, year: int, semester: string, next: int)
    requires CourseStudentIndexUnique(enrollments) && NoDups(plan)
    requires rows == NewRows(plan, courseId, year, semester, next)
    ensures CourseStudentIndexUnique(enrollments + rows)
        <==> forall id :: id in plan ==> id !in EnrolledInCourse(enrollments, courseId)
  {
    var all := enrollments + rows;
    if forall id :: id in plan ==> id !in EnrolledInCourse(enrollments, courseId) {
      forall i, j | 0 <= i < j < |all|
        ensures !(all[i].courseId == all[j].courseId && all[i].studentId == all[j].studentId)
      {
        if j >= |enrollments| {
          var jj := j - |enrollments|;
          assert all[j] == rows[jj];
          if i < |enrollments| {
            assert all[i] in enrollments;
            assert plan[jj] in plan;
          } else {
            assert all[i] == rows[i - |enrollments|];
          }
        }
      }
    } else {
      var id :| id in plan && id in EnrolledInCourse(enrollments, courseId);
      var e :| e in enrollments && e.courseId == courseId && e.studentId == id;
      var i :| 0 <= i < |enrollments| && enrollments[i] == e;
      var k :| 0 <= k < |plan| && plan[k] == id;
      assert all[i] == e && all[|enrollments| + k] == rows[k];
    }
  }

  /** The new rows' foreign keys resolve exactly when there are none or the course exists. */
  lemma NewRowsRefs(students: seq<Student>, courses: seq<Course>, enrollments: seq<Enrollment>,
                    rows: seq<Enrollment>, plan: seq<int>, courseId: int, year: int, semester: string, next: int)
    requires EnrollmentRefsResolve(students, courses, enrollments)
    requires forall id :: id in plan ==> HasStudent(students, id)
    requires rows == NewRows(plan, courseId, year, semester, next)
    ensures EnrollmentRefsResolve(students, courses, enrollments + rows) <==> plan == [] || HasCourse(courses, courseId)
  {
    if plan != [] && EnrollmentRefsResolve(students, courses, enrollments + rows) {
      assert rows[0] in enrollments + rows;
    }
    forall e | e in rows ensures e.studentId in plan && e.courseId == courseId {
      NewRowsAreBlank(plan, courseId, year, semester, next);
    }
  }

  /** When the database accepts `EnrollStudents`' batch: always when nothing is
      planned, and otherwise exactly when the course exists and no planned
      student has a row of the course from any period. */
  lemma EnrollSaveSucceedsIff(students: seq<Student>, teachers: seq<Teacher>, courses: seq<Course>,
                              enrollments: seq<Enrollment>, next: int, courseId: int, year: int,
                              semester: Option<string>, selected: seq<int>)
    requires Consistent(students, teachers, courses, enrollments)
    requires forall e :: e in enrollments ==> e.id < next
    ensures var plan := EnrollmentPlan(students, enrollments, courseId, year, semester, selected);
            Consistent(students, teachers, courses, enrollments + NewRows(plan, courseId, year, NormalizeSemester(semester), next))
            <==> plan == [] || (HasCourse(courses, courseId) && forall id :: id in plan ==> id !in EnrolledInCourse(enrollments, courseId))
  {
    var plan := EnrollmentPlan(students, enrollments, courseId, year, semester, selected);
    var sem := NormalizeSemester(semester);
    var rows := NewRows(plan, courseId, year, sem, next);
    NewRowsKeepKeys(enrollments, rows, plan, courseId, year, sem, next);
    NewRowsPairIndex(enrollments, rows, plan, courseId, year, sem, next);
    NewRowsRefs(students, courses, enrollments, rows, plan, courseId, year, sem, next);
  }

  /** Enrolling twice with the same arguments inserts nothing the second time. */
  lemma EnrollIdempotent(students: seq<Student>, enrollments: seq<Enrollment>, next: int, courseId: int,
                         year: int, semester: Option<string>, selected: seq<int>)
    ensures var plan := EnrollmentPlan(students, enrollments, courseId, year, semester, selected);
            var after := enrollments + NewRows(plan, courseId, year, NormalizeSemester(semester), next);
            EnrollmentPlan(students, after, courseId, year, semester, selected) == []
  {
    var sem := NormalizeSemester(semester);
    var plan := EnrollmentPlan(students, enrollments, courseId, year, semester, selected);
    var rows := NewRows(plan, courseId, year, sem, next);
    var after := enrollments + rows;
    var again := EnrollmentPlan(students, after, courseId, year, semester, selected);
    NewRowsAreBlank(plan, courseId, year, sem, next);
    forall id | id in plan ensures id in EnrolledForPeriod(after, courseId, year, sem) {
      var e :| e in rows && e.studentId == id;
      assert e in after;
    }
    assert PassedStudentIds(enrollments, courseId) <= PassedStudentIds(after, courseId);
    assert EnrolledForPeriod(enrollments, courseId, year, sem) <= EnrolledForPeriod(after, courseId, year, sem);
    EmptyIfNoMembers(again);
  }

  /** The corrected plan: the as-written plan without students who already
      have a row of the course in another period. */
  function SafeEnrollmentPlan(students: seq<Student>, enrollments: seq<Enrollment>, courseId: int,
                              year: int, semester: Option<string>, selected: seq<int>): (r: seq<int>)
    ensures NoDups(r)
    ensures forall id :: id in r <==>
      id in EnrollmentPlan(students, enrollments, courseId, year, semester, selected)
      && id !in EnrolledInCourse(enrollments, courseId)
  {
    var enrolled := EnrolledInCourse(enrollments, courseId);
    Filter(EnrollmentPlan(students, enrollments, courseId, year, semester, selected), id => id !in enrolled)
  }

  /** The corrected plan is always accepted by the database for an existing course. */
  lemma SafePlanSaves(students: seq<Student>, teachers: seq<Teacher>, courses: seq<Course>,
                      enrollments: seq<Enrollment>, next: int, courseId: int, year: int,
                      semester: Option<string>, selected: seq<int>)
    requires Consistent(students, teachers, courses, enrollments)
    requires forall e :: e in enrollments ==> e.id < next
    requires HasCourse(courses, courseId)
    ensures var plan := SafeEnrollmentPlan(students, enrollments, courseId, year, semester, selected);
            Consistent(students, teachers, courses, enrollments + NewRows(plan, courseId, year, NormalizeSemester(semester), next))
  {
    var plan := SafeEnrollmentPlan(students, enrollments, courseId, year, semester, selected);
    var sem := NormalizeSemester(semester);
    var rows := NewRows(plan, courseId, year, sem, next);
    NewRowsKeepKeys(enrollments, rows, plan, courseId, year, sem, next);
    NewRowsPairIndex(enrollments, rows, plan, courseId, year, sem, next);
    NewRowsRefs(students, courses, enrollments, rows, plan, courseId, year, sem, next);
  }

  /** Whenever the as-written batch is accepted it is the corrected one, so the
      correction changes only the batches the database refuses. */
  lemma PlansAgreeWhenSaved(students: seq<Student>, teachers: seq<Teacher>, courses: seq<Course>,
                            enrollments: seq<Enrollment>, next: int, courseId: int, year: int,
                            semester: Option<string>, selected: seq<int>)
    requires Consistent(students, teachers, courses, enrollments)
    requires forall e :: e in enrollments ==> e.id < next
    requires var plan := EnrollmentPlan(students, enrollments, courseId, year, semester, selected);
             Consistent(students, teachers, courses, enrollments + NewRows(plan, courseId, year, NormalizeSemester(semester), next))
    ensures SafeEnrollmentPlan(students, enrollments, courseId, year, semester, selected)
         == EnrollmentPlan(students, enrollments, courseId, year, semester, selected)
  {
    EnrollSaveSucceedsIff(students, teachers, courses, enrollments, next, courseId, year, semester, selected);
    var enrolled := EnrolledInCourse(enrollments, courseId);
    FilterKeepsAll(EnrollmentPlan(students, enrollments, courseId, year, semester, selected), id => id !in enrolled);
  }

  // The store of the counterexample below: seed students 1 and 2, both now in
  // semester 4, seed teacher 1 and course 1, and a failed winter enrollment.
  const Petar := Student(1, "201001", "Petar", "Nikolov", Some(Date(2022, 10, 1)), None, Some(4), None, None, None)
  const Marija := Student(2, "201002", "Marija", "Stankova", Some(Date(2022, 10, 1)), None, Some(4), None, None, None)
  const Ivan := Teacher(1, "Ivan", "Petrovski", Some("PhD"), Some("Professor"), Some("A101"), None, None, None)
  const Databases := Course(1, "Databases", 6, 3, Some("IT"), Some("Undergraduate"), Some(1), None)
  const FailedWinter := Enrollment(1, 1, 1, Some(Winter), Some(2022), Some(5), None, None, None, None, None, None, Some(Date(2023, 2, 1)))

  lemma CounterexampleStoreConsistent()
    ensures Consistent([Petar, Marija], [Ivan], [Databases], [FailedWinter])
  {
    assert HasStudent([Petar, Marija], 1);
    assert HasTeacher([Ivan], 1) && HasCourse([Databases], 1);
  }

  lemma CounterexampleEligible()
    ensures IsEligible(Petar, 2022, Some(Summer)) && IsEligible(Marija, 2022, Some(Summer))
  {
    CanonicalEligibility(Petar, 2022);
    CanonicalEligibility(Marija, 2022);
  }

  lemma CounterexampleNotPassed()
    ensures PassedStudentIds([FailedWinter], 1) == {}
  {
  }

  lemma CounterexampleNotInPeriod()
    ensures EnrolledForPeriod([FailedWinter], 1, 2022, Summer) == {}
  {
    NamesDiffer();
    assert !InPeriod(FailedWinter, 1, 2022, Summer);
  }

  lemma CounterexampleEligibleIds()
    ensures 1 in EligibleStudentIds([Petar, Marija], 2022, Some(Summer))
    ensures 2 in EligibleStudentIds([Petar, Marija], 2022, Some(Summer))
  {
    CounterexampleEligible();
    assert Petar in [Petar, Marija] && Marija in [Petar, Marija];
  }

  lemma CounterexamplePlan()
    ensures var plan := EnrollmentPlan([Petar, Marija], [FailedWinter], 1, 2022, Some(Summer), [1, 2]);
            1 in plan && 2 in plan
  {
    CounterexampleEligibleIds();
    CounterexampleNotPassed();
    CounterexampleNotInPeriod();
    NormalizeCanonical();
    Planned([Petar, Marija], [FailedWinter], 1, 2022, Some(Summer), [1, 2], 1);
    Planned([Petar, Marija], [FailedWinter], 1, 2022, Some(Summer), [1, 2], 2);
  }

  /** The as-written batch can break the (CourseId, StudentId) index. Seed
      student 1 failed Databases (course 1) in the 2022 winter period and has
      since moved to semester 4; student 2 has never taken the course. Enrolling
      both for the 2022 summer period plans both, the database refuses the
      batch, and student 2 is not enrolled either. */
  lemma EnrollmentPlanCollides()
    ensures var plan := EnrollmentPlan([Petar, Marija], [FailedWinter], 1, 2022, Some(Summer), [1, 2]);
            && Consistent([Petar, Marija], [Ivan], [Databases], [FailedWinter])
            && 1 in plan && 2 in plan
            && !Consistent([Petar, Marija], [Ivan], [Databases], [FailedWinter] + NewRows(plan, 1, 2022, NormalizeSemester(Some(Summer)), 2))
  {
    CounterexampleStoreConsistent();
    CounterexamplePlan();
    CounterexampleHasRow();
    CounterexampleKeysBelow();
    PlannedRowCollides([Petar, Marija], [Ivan], [Databases], [FailedWinter], 2, 1, 2022, Some(Summer), [1, 2], 1);
  }

  lemma CounterexampleKeysBelow()
    ensures forall e :: e in [FailedWinter] ==> e.id < 2
  {
    assert FailedWinter.id == 1;
  }

  lemma CounterexampleHasRow()
    ensures 1 in EnrolledInCourse([FailedWinter], 1)
  {
    assert FailedWinter in [FailedWinter];
  }

  /** A planned student who already has a row of the course makes the batch fail. */
  lemma PlannedRowCollides(students: seq<Student>, teachers: seq<Teacher>, courses: seq<Course>,
                           enrollments: seq<Enrollment>, next: int, courseId: int, year: int,
                           semester: Option<string>, selected: seq<int>, id: int)
    requires Consistent(students, teachers, courses, enrollments)
    requires forall e :: e in enrollments ==> e.id < next
    requires id in EnrollmentPlan(students, enrollments, courseId, year, semester, selected)
    requires id in EnrolledInCourse(enrollments, courseId)
    ensures var plan := EnrollmentPlan(students, enrollments, courseId, year, semester, selected);
            !Consistent(students, teachers, courses, enrollments + NewRows(plan, courseId, year, NormalizeSemester(semester), next))
  {
    EnrollSaveSucceedsIff(students, teachers, courses, enrollments, next, courseId, year, semester, selected);
  }

  /** Admin only (`[Authorize(Roles = "Admin")]`). `EnrollStudents` inserts
      the planned rows in one save, which the database either accepts whole or
      refuses whole; the other tables never change. */
  method EnrollStudents(db: ApplicationDbContext, caller: Principal, courseId: int, enrollYear: int,
                        enrollSemester: Option<string>, selectedStudentIds: seq<int>) returns (result: ActionResult)
    requires db.Valid()
    modifies db
    ensures db.Valid()
    ensures db.students == old(db.students) && db.teachers == old(db.teachers) && db.courses == old(db.courses)
    ensures db.nextStudentId == old(db.nextStudentId)
    ensures AdminRole !in caller.roles ==> result == Forbidden && db.enrollments == old(db.enrollments)
    ensures AdminRole in caller.roles ==>
      var plan := EnrollmentPlan(old(db.students), old(db.enrollments), courseId, enrollYear, enrollSemester, selectedStudentIds);
      var rows := NewRows(plan, courseId, enrollYear, NormalizeSemester(enrollSemester), old(db.nextEnrollmentId));
      if Consistent(old(db.students), old(db.teachers), old(db.courses), old(db.enrollments) + rows)
      then result == Done && db.enrollments == old(db.enrollments) + rows
      else result == Thrown(SaveError) && db.enrollments == old(db.enrollments)
  {
    if AdminRole !in caller.roles {
      return Forbidden;
    }
    var semester := NormalizeSemester(enrollSemester);
    var plan := EnrollmentPlan(db.students, db.enrollments, courseId, enrollYear, enrollSemester, selectedStudentIds);
    var toAdd := NewRows(plan, courseId, enrollYear, semester, db.nextEnrollmentId);
    if |toAdd| == 0 {
      assert db.enrollments + toAdd == db.enrollments;
      return Done;
    }
    NewRowsNumbered(plan, courseId, enrollYear, semester, db.nextEnrollmentId);
    var saved := db.SaveNewEnrollments(toAdd);
    result := if saved then Done else Thrown(SaveError);
  }

  /** `EnrollStudents` with the corrected plan: for an existing course the
      database always accepts the batch, so nobody's enrollment is lost to
      another student's earlier row. */
  method EnrollStudentsSafely(db: ApplicationDbContext, caller: Principal, courseId: int, enrollYear: int,
                              enrollSemester: Option<string>, selectedStudentIds: seq<int>) returns (result: ActionResult)
    requires db.Valid()
    modifies db
    ensures db.Valid()
    ensures db.students == old(db.students) && db.teachers == old(db.teachers) && db.courses == old(db.courses)
    ensures db.nextStudentId == old(db.nextStudentId)
    ensures AdminRole !in caller.roles ==> result == Forbidden && db.enrollments == old(db.enrollments)
    ensures AdminRole in caller.roles && HasCourse(old(db.courses), courseId) ==>
      var plan := SafeEnrollmentPlan(old(db.students), old(db.enrollments), courseId, enrollYear, enrollSemester, selectedStudentIds);
      && result == Done
      && db.enrollments == old(db.enrollments) + NewRows(plan, courseId, enrollYear, NormalizeSemester(enrollSemester), old(db.nextEnrollmentId))
    ensures result != Done ==> db.enrollments == old(db.enrollments)
  {
    if AdminRole !in caller.roles {
      return Forbidden;
    }
    var semester := NormalizeSemester(enrollSemester);
    var plan := SafeEnrollmentPlan(db.students, db.enrollments, courseId, enrollYear, enrollSemester, selectedStudentIds);
    var toAdd := NewRows(plan, courseId, enrollYear, semester, db.nextEnrollmentId);
    if |toAdd| == 0 {
      assert db.enrollments + toAdd == db.enrollments;
      return Done;
    }
    SafeBatchOutcome(db.students, db.teachers, db.courses, db.enrollments, db.nextEnrollmentId,
                     courseId, enrollYear, enrollSemester, selectedStudentIds, toAdd);
    var saved := db.SaveNewEnrollments(toAdd);
    result := if saved then Done else Thrown(SaveError);
  }

  /** The corrected batch is refused only for a course that does not exist. */
  lemma SafePlanSavesWhenCourseExists(students: seq<Student>, teachers: seq<Teacher>, courses: seq<Course>,
                                      enrollments: seq<Enrollment>, next: int, courseId: int, year: int,
                                      semester: Option<string>, selected: seq<int>)
    requires Consistent(students, teachers, courses, enrollments)
    requires forall e :: e in enrollments ==> e.id < next
    ensures var plan := SafeEnrollmentPlan(students, enrollments, courseId, year, semester, selected);
            !Consistent(students, teachers, courses, enrollments + NewRows(plan, courseId, year, NormalizeSemester(semester), next))
            ==> !HasCourse(courses, courseId)
  {
    if HasCourse(courses, courseId) {
      SafePlanSaves(students, teachers, courses, enrollments, next, courseId, year, semester, selected);
    }
  }

  /** The corrected batch, as the action hands it to the store: numbered from
      the next identity value, and refused only for a missing course. */
  lemma SafeBatchOutcome(students: seq<Student>, teachers: seq<Teacher>, courses: seq<Course>,
                         enrollments: seq<Enrollment>, next: int, courseId: int, year: int,
                         semester: Option<string>, selected: seq<int>, rows: seq<Enrollment>)
    requires Consistent(students, teachers, courses, enrollments)
    requires forall e :: e in enrollments ==> e.id < next
    requires rows == NewRows(SafeEnrollmentPlan(students, enrollments, courseId, year, semester, selected),
                             courseId, year, NormalizeSemester(semester), next)
    ensures forall i :: 0 <= i < |rows| ==> rows[i].id == next + i
    ensures !Consistent(students, teachers, courses, enrollments + rows) ==> !HasCourse(courses, courseId)
  {
    var plan := SafeEnrollmentPlan(students, enrollments, courseId, year, semester, selected);
    SafePlanSavesWhenCourseExists(students, teachers, courses, enrollments, next, courseId, year, semester, selected);
    NewRowsNumbered(plan, courseId, year, NormalizeSemester(semester), next);
  }

  /** Enrolling twice with the corrected plan inserts nothing the second time. */
  lemma SafeEnrollIdempotent(students: seq<Student>, enrollments: seq<Enrollment>, next: int, courseId: int,
                             year: int, semester: Option<string>, selected: seq<int>)
    ensures var plan := SafeEnrollmentPlan(students, enrollments, courseId, year, semester, selected);
            var after := enrollments + NewRows(plan, courseId, year, NormalizeSemester(semester), next);
            SafeEnrollmentPlan(students, after, courseId, year, semester, selected) == []
  {
    var sem := NormalizeSemester(semester);
    var plan := SafeEnrollmentPlan(students, enrollments, courseId, year, semester, selected);
    var rows := NewRows(plan, courseId, year, sem, next);
    var after := enrollments + rows;
    var again := SafeEnrollmentPlan(students, after, courseId, year, semester, selected);
    NewRowsAreBlank(plan, courseId, year, sem, next);
    forall id | id in plan ensures id in EnrolledInCourse(after, courseId) {
      var e :| e in rows && e.studentId == id;
      assert e in after;
    }
    assert EnrolledInCourse(enrollments, courseId) <= EnrolledInCourse(after, courseId);
    assert PassedStudentIds(enrollments, courseId) <= PassedStudentIds(after, courseId);
    assert EnrolledForPeriod(enrollments, courseId, year, sem) <= EnrolledForPeriod(after, courseId, year, sem);
    assert forall id :: id in again ==> id in plan;
    EmptyIfNoMembers(again);
  }

  /** Whether `DeactivateStudents` finishes this row. */
  predicate SelectedForDeactivation(e: Enrollment, courseId: int, year: int, semester: string, ids: set<int>) {
    InPeriod(e, courseId, year, semester) && e.id in ids
  }

  /** A row after deactivation: a selected row gets the finish date, even if it
      already had one; any other row is untouched. */
  function DeactivatedRow(e: Enrollment, courseId: int, year: int, semester: string, ids: set<int>, finishDate: Date): Enrollment {
    if SelectedForDeactivation(e, courseId, year, semester, ids) then e.(finishDate := Some(finishDate)) else e
  }

  function Deactivated(enrollments: seq<Enrollment>, courseId: int, year: int, semester: string,
                       ids: set<int>, finishDate: Date): (r: seq<Enrollment>)
    ensures |r| == |enrollments|
  {
    seq(|enrollments|, i requires 0 <= i < |enrollments| => DeactivatedRow(enrollments[i], courseId, year, semester, ids, finishDate))
  }

  /** Deactivation changes exactly the selected rows, and of those only the
      finish date; afterwards every selected row is inactive. */
  lemma DeactivatedExactly(enrollments: seq<Enrollment>, courseId: int, year: int, semester: string, ids: set<int>, finishDate: Date)
    ensures var r := Deactivated(enrollments, courseId, year, semester, ids, finishDate);
      forall i :: 0 <= i < |enrollments| ==>
        && (r[i] != enrollments[i] ==> SelectedForDeactivation(enrollments[i], courseId, year, semester, ids))
        && r[i].(finishDate := enrollments[i].finishDate) == enrollments[i]
        && (SelectedForDeactivation(enrollments[i], courseId, year, semester, ids) ==> r[i].finishDate == Some(finishDate))
  {
  }

  /** Deactivation never reactivates a row. */
  lemma DeactivationNeverReactivates(enrollments: seq<Enrollment>, courseId: int, year: int, semester: string, ids: set<int>, finishDate: Date)
    ensures var r := Deactivated(enrollments, courseId, year, semester, ids, finishDate);
      forall i :: 0 <= i < |enrollments| && !enrollments[i].IsActive() ==> !r[i].IsActive()
  {
  }

  /** Deactivating the same selection twice is deactivating it once. */
  lemma DeactivateIdempotent(enrollments: seq<Enrollment>, courseId: int, year: int, semester: string, ids: set<int>, finishDate: Date)
    ensures var once := Deactivated(enrollments, courseId, year, semester, ids, finishDate);
            Deactivated(once, courseId, year, semester, ids, finishDate) == once
  {
  }

  /** Deactivation keeps every constraint of the store: it changes no key. */
  lemma DeactivateKeepsConsistent(students: seq<Student>, teachers: seq<Teacher>, courses: seq<Course>,
                                  enrollments: seq<Enrollment>, courseId: int, year: int, semester: string,
                                  ids: set<int>, finishDate: Date)
    requires Consistent(students, teachers, courses, enrollments)
    ensures Consistent(students, teachers, courses, Deactivated(enrollments, courseId, year, semester, ids, finishDate))
    ensures forall e :: e in Deactivated(enrollments, courseId, year, semester, ids, finishDate) ==>
              exists old_e :: old_e in enrollments && old_e.id == e.id
  {
    var r := Deactivated(enrollments, courseId, year, semester, ids, finishDate);
    forall e | e in r ensures exists old_e :: old_e in enrollments && old_e.id == e.id && old_e.courseId == e.courseId && old_e.studentId == e.studentId {
      var i :| 0 <= i < |r| && r[i] == e;
      assert enrollments[i] in enrollments;
    }
  }

  /** Admin only. `DeactivateStudents` sets the finish date on the selected
      rows of the course for the period; an empty selection changes nothing. */
  method DeactivateStudents(db: ApplicationDbContext, caller: Principal, courseId: int, enrollYear: int,
                            enrollSemester: Option<string>, selectedEnrollmentIds: seq<int>,
                            finishDateForDeactivation: Date) returns (result: ActionResult)
    requires db.Valid()
    modifies db
    ensures db.Valid()
    ensures db.students == old(db.students) && db.teachers == old(db.teachers) && db.courses == old(db.courses)
    ensures db.nextStudentId == old(db.nextStudentId) && db.nextEnrollmentId == old(db.nextEnrollmentId)
    ensures AdminRole !in caller.roles ==> result == Forbidden && db.enrollments == old(db.enrollments)
    ensures AdminRole in caller.roles ==> result == Done
    ensures AdminRole in caller.roles && |selectedEnrollmentIds| == 0 ==> db.enrollments == old(db.enrollments)
    ensures AdminRole in caller.roles && |selectedEnrollmentIds| > 0 ==>
      db.enrollments == Deactivated(old(db.enrollments), courseId, enrollYear, NormalizeSemester(enrollSemester),
                                    (set id | id in selectedEnrollmentIds), finishDateForDeactivation)
  {
    if AdminRole !in caller.roles {
      return Forbidden;
    }
    var semester := NormalizeSemester(enrollSemester);
    if |selectedEnrollmentIds| == 0 {
      return Done;
    }
    var ids := set id | id in selectedEnrollmentIds;
    var rows := db.enrollments;
    var i := 0;
    while i < |rows|
      invariant 0 <= i <= |rows| == |db.enrollments|
      invariant forall k :: 0 <= k < i ==>
        rows[k] == DeactivatedRow(db.enrollments[k], courseId, enrollYear, semester, ids, finishDateForDeactivation)
      invariant forall k :: i <= k < |rows| ==> rows[k] == db.enrollments[k]
    {
      var e := rows[i];
      if e.courseId == courseId && e.year == Some(enrollYear) && e.semester == Some(semester) && e.id in ids {
        rows := rows[i := e.(finishDate := Some(finishDateForDeactivation))];
      }
      i := i + 1;
    }
    assert rows == Deactivated(db.enrollments, courseId, enrollYear, semester, ids, finishDateForDeactivation);
    DeactivateKeepsConsistent(db.students, db.teachers, db.courses, db.enrollments, courseId, enrollYear, semester, ids, finishDateForDeactivation);
    db.enrollments := rows;
    return Done;
  }
}
