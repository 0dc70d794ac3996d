/** The admin's student actions: the searchable list, creating a student
    together with its account, editing a student and deleting one. */
module Students {
  import opened Seqs
  import opened Text
  import opened Models
  import opened Data
  import opened Ordering
  import opened Uploads

  const EmailInUse: string := "This email is already in use."
  const DuplicateStudentId: string := "StudentId already exists."

  // ---------------------------------------------------------------------------
  // The list (`Index`)
  // ---------------------------------------------------------------------------

  /** The three search boxes and the course filter: a chosen course keeps the
      students with a row of it. */
  predicate StudentMatches(s: Student, enrollments: seq<Enrollment>, index: Option<string>, firstName: Option<string>,
                           lastName: Option<string>, courseId: Option<int>) {
    && FilterAccepts(index, Some(s.studentId))
    && FilterAccepts(firstName, Some(s.firstName))
    && FilterAccepts(lastName, Some(s.lastName))
    && (courseId.Some? ==> exists e :: e in enrollments && e.studentId == s.id && e.courseId == courseId.value)
  }

  function StudentOrder(s: Student): SortKey {
    SortKey(0, s.studentId, "")
  }

  /** Admin only. `Index`: the students every filter accepts, by index number. */
  function StudentIndex(caller: Principal, students: seq<Student>, enrollments: seq<Enrollment>, index: Option<string>,
                        firstName: Option<string>, lastName: Option<string>, courseId: Option<int>): (r: Page<seq<Student>>)
    ensures r.Redirected? <==> AdminRole !in caller.roles
    ensures r.Redirected? ==> r.outcome == Forbidden
    ensures r.Shown? ==> forall s :: s in r.content <==> s in students && StudentMatches(s, enrollments, index, firstName, lastName, courseId)
    ensures r.Shown? ==> SortedBy(r.content, StudentOrder)
    ensures r.Shown? ==> forall s :: multiset(r.content)[s] ==
                            if StudentMatches(s, enrollments, index, firstName, lastName, courseId) then multiset(students)[s] else 0
  {
    if AdminRole !in caller.roles then Redirected(Forbidden)
    else
      var matches := s => StudentMatches(s, enrollments, index, firstName, lastName, courseId);
      var kept := Filter(students, matches);
      FilterCounts(students, matches);
      SortByMembers(kept, StudentOrder);
      Shown(SortBy(kept, StudentOrder))
  }

  /** With a unique index number, searching for a student's whole index number
      finds that student. */
  lemma SearchByIndexFindsStudent(caller: Principal, students: seq<Student>, enrollments: seq<Enrollment>, s: Student)
    requires AdminRole in caller.roles && s in students && !IsBlank(s.studentId)
    ensures var r := StudentIndex(caller, students, enrollments, Some(s.studentId), None, None, None);
            r.Shown? && s in r.content
  {
    assert s.studentId <= s.studentId[0..];
  }

  // ---------------------------------------------------------------------------
  // Creating (`Create`)
  // ---------------------------------------------------------------------------

  /** The student fields of the create form. */
  datatype StudentForm = StudentForm(
    studentId: string,
    firstName: string,
    lastName: string,
    enrollmentDate: Option<Date>,
    currentSemester: Option<int>,
    acquiredCredits: Option<int>,
    educationLevel: Option<string>)

  /** The row `Create` inserts: the form's fields under the next identity value,
      the picture if one was sent, and no account link yet. */
  function NewStudent(id: int, form: StudentForm, imagePath: Option<string>): Student {
    Student(id, form.studentId, form.firstName, form.lastName, form.enrollmentDate, form.acquiredCredits,
            form.currentSemester, form.educationLevel, imagePath, None)
  }

  /** The widths the student columns declare: index number 10, names 50,
      education level 25. The create form leaves them unchecked, so a longer
      value reaches the save, which throws. */
  predicate FitsColumns(form: StudentForm) {
    && FitsColumn(Some(form.studentId), 10)
    && FitsColumn(Some(form.firstName), 50)
    && FitsColumn(Some(form.lastName), 50)
    && FitsColumn(form.educationLevel, 25)
  }

  predicate IndexNumberTaken(students: seq<Student>, studentId: string) {
    exists s :: s in students && s.studentId == studentId
  }

  /** A new student with a fresh id and a free index number keeps every
      constraint of the store. */
  lemma AddingStudentKeepsConsistent(students: seq<Student>, teachers: seq<Teacher>, courses: seq<Course>,
                                     enrollments: seq<Enrollment>, s: Student)
    requires Consistent(students, teachers, courses, enrollments)
    requires forall t :: t in students ==> t.id != s.id
    requires !IndexNumberTaken(students, s.studentId)
    ensures Consistent(students + [s], teachers, courses, enrollments)
  {
    var all := students + [s];
    forall i, j | 0 <= i < j < |all| ensures all[i].id != all[j].id && all[i].studentId != all[j].studentId {
      if j == |students| {
        assert all[i] in students;
      } else {
        assert all[i] == students[i] && all[j] == students[j];
      }
    }
    forall id | HasStudent(students, id) ensures HasStudent(all, id) {
      var t :| t in students && t.id == id;
      assert t in all;
    }
  }

  /** Admin only. `Create` refuses an invalid form, a taken e-mail address and
      a taken index number, and throws on a refused picture, all before touching
      the store; the save throws on a value wider than its column. Otherwise it
      saves the student, creates the account and links it.
      When the account cannot be created the student is removed again, so the
      table is as before; the identity counter has still moved on. */
  method Create(db: ApplicationDbContext, caller: Principal, form: StudentForm, image: Option<Upload>, guid: string,
                modelValid: bool, emailTaken: bool, accountCreated: bool, userId: string) returns (result: ActionResult)
    requires db.Valid()
    modifies db
    ensures db.Valid()
    ensures db.teachers == old(db.teachers) && db.courses == old(db.courses) && db.enrollments == old(db.enrollments)
    ensures db.nextEnrollmentId == old(db.nextEnrollmentId)
    ensures AdminRole !in caller.roles ==> result == Forbidden
    ensures var inserts := AdminRole in caller.roles && modelValid && !emailTaken
                           && !IndexNumberTaken(old(db.students), form.studentId) && !ImageRefused(image) && FitsColumns(form);
      && (AdminRole in caller.roles ==>
            && (!modelValid ==> result == InvalidForm)
            && (modelValid && emailTaken ==> result == Rejected(EmailInUse))
            && (modelValid && !emailTaken && IndexNumberTaken(old(db.students), form.studentId) ==> result == Rejected(DuplicateStudentId))
            && (modelValid && !emailTaken && !IndexNumberTaken(old(db.students), form.studentId) && ImageRefused(image) ==> result == Thrown(ImageError))
            && ((modelValid && !emailTaken && !IndexNumberTaken(old(db.students), form.studentId) && !ImageRefused(image)
                 && !FitsColumns(form)) ==> result == Thrown(SaveError)))
      && (inserts ==> db.nextStudentId == old(db.nextStudentId) + 1)
      && (!inserts ==> db.nextStudentId == old(db.nextStudentId))
      && (inserts && !accountCreated ==> result == InvalidForm)
      && (inserts && accountCreated ==> (
            && result == Done
            && db.students == old(db.students)
                 + [NewStudent(old(db.nextStudentId), form, KeptImagePath(None, image, "students", guid)).(applicationUserId := Some(userId))]))
    ensures result != Done ==> db.students == old(db.students)
  {
    if AdminRole !in caller.roles {
      return Forbidden;
    }
    if !modelValid {
      return InvalidForm;
    }
    if emailTaken {
      return Rejected(EmailInUse);
    }
    var idExists := exists s :: s in db.students && s.studentId == form.studentId;
    if idExists {
      return Rejected(DuplicateStudentId);
    }
    if ImageRefused(image) {
      return Thrown(ImageError);
    }
    if !FitsColumns(form) {
      return Thrown(SaveError);
    }
    var student := NewStudent(db.nextStudentId, form, KeptImagePath(None, image, "students", guid));
    ghost var before := db.students;
    AddingStudentKeepsConsistent(db.students, db.teachers, db.courses, db.enrollments, student);
    db.students := db.students + [student];
    db.nextStudentId := db.nextStudentId + 1;
    if !accountCreated {
      db.students := RemoveAt(db.students, |db.students| - 1);
      assert db.students == before;
      return InvalidForm;
    }
    var linked := student.(applicationUserId := Some(userId));
    AddingStudentKeepsConsistent(before, db.teachers, db.courses, db.enrollments, linked);
    db.students := db.students[|db.students| - 1 := linked];
    assert db.students == before + [linked];
    return Done;
  }

  // ---------------------------------------------------------------------------
  // Editing (`Edit`)
  // ---------------------------------------------------------------------------

  /** The row `Edit` saves: the submitted fields, with the stored account link
      and the stored picture unless a new picture was sent. */
  function EditedStudent(form: Student, stored: Student, image: Option<Upload>, guid: string): (r: Student)
    requires !ImageRefused(image)
    ensures r.applicationUserId == stored.applicationUserId
    ensures !HasFile(image) ==> r.profileImagePath == stored.profileImagePath
    ensures HasFile(image) ==> r.profileImagePath.Some? && UploadFolder("students") <= r.profileImagePath.value
                               && GetExtension(r.profileImagePath.value) in ImageExtensions
    ensures r.(profileImagePath := form.profileImagePath, applicationUserId := form.applicationUserId) == form
  {
    form.(profileImagePath := KeptImagePath(stored.profileImagePath, image, "students", guid),
          applicationUserId := stored.applicationUserId)
  }

  /** Saving a student over the row with its id is accepted exactly when no
      other student holds its index number. */
  lemma {:induction false} ReplacingStudentSavesIff(students: seq<Student>, teachers: seq<Teacher>, courses: seq<Course>,
                                                    enrollments: seq<Enrollment>, k: nat, s: Student)
    requires Consistent(students, teachers, courses, enrollments)
    requires k < |students| && s.id == students[k].id
    ensures Consistent(students[k := s], teachers, courses, enrollments)
        <==> forall j :: 0 <= j < |students| && j != k ==> students[j].studentId != s.studentId
  {
    var after := students[k := s];
    forall id | HasStudent(students, id) ensures HasStudent(after, id) {
      var t :| t in students && t.id == id;
      var i :| 0 <= i < |students| && students[i] == t;
      assert after[i].id == id;
    }
    if !forall j :: 0 <= j < |students| && j != k ==> students[j].studentId != s.studentId {
      var j :| 0 <= j < |students| && j != k && students[j].studentId == s.studentId;
      assert after[j].studentId == after[k].studentId;
    }
  }

  /** Admin only. `Edit` saves the submitted student over the stored one with
      the same id, keeping the account link and, unless a new picture comes, the
      picture. The unique index refuses an index number another student holds:
      the save throws and the store stays as it was. */
  method Edit(db: ApplicationDbContext, caller: Principal, id: int, form: Student, image: Option<Upload>,
              guid: string, modelValid: bool) returns (result: ActionResult)
    requires db.Valid()
    modifies db
    ensures db.Valid()
    ensures db.teachers == old(db.teachers) && db.courses == old(db.courses) && db.enrollments == old(db.enrollments)
    ensures db.nextStudentId == old(db.nextStudentId) && db.nextEnrollmentId == old(db.nextEnrollmentId)
    ensures result != Done ==> db.students == old(db.students)
    ensures AdminRole !in caller.roles ==> result == Forbidden
    ensures AdminRole in caller.roles ==>
      && (result == NotFound <==> id != form.id || !HasStudent(old(db.students), id))
      && (result == Thrown(ImageError) <==> result != NotFound && ImageRefused(image))
      && (result == InvalidForm <==> result != NotFound && !ImageRefused(image) && !modelValid)
      && (result == Done || result == Thrown(SaveError) <==> result != NotFound && !ImageRefused(image) && modelValid)
    ensures result == Done || result == Thrown(SaveError) ==> exists k :: (
      && 0 <= k < |old(db.students)| && old(db.students)[k].id == id
      && !ImageRefused(image) && modelValid && AdminRole in caller.roles
      && (result == Done <==> forall j :: 0 <= j < |old(db.students)| && j != k ==> old(db.students)[j].studentId != form.studentId)
      && (result == Done ==> db.students == old(db.students)[k := EditedStudent(form, old(db.students)[k], image, guid)]))
  {
    if AdminRole !in caller.roles {
      return Forbidden;
    }
    if id != form.id {
      return NotFound;
    }
    var found := FindIndex(db.students, (s: Student) => s.id == id);
    if found.None? {
      forall s | s in db.students ensures s.id != id {
        var i :| 0 <= i < |db.students| && db.students[i] == s;
      }
      return NotFound;
    }
    var k := found.value;
    if ImageRefused(image) {
      return Thrown(ImageError);
    }
    var edited := EditedStudent(form, db.students[k], image, guid);
    if !modelValid {
      return InvalidForm;
    }
    var after := db.students[k := edited];
    ReplacingStudentSavesIff(db.students, db.teachers, db.courses, db.enrollments, k, edited);
    if !Consistent(after, db.teachers, db.courses, db.enrollments) {
      return Thrown(SaveError);
    }
    db.students := after;
    return Done;
  }

  // ---------------------------------------------------------------------------
  // Deleting (`DeleteConfirmed`)
  // ---------------------------------------------------------------------------

  /** The cascade of the required foreign key `Enrollment.StudentId`: the
      student's rows go with it; every other row stays, in order. */
  function WithoutStudentRows(enrollments: seq<Enrollment>, studentId: int): (r: seq<Enrollment>)
    ensures forall e :: e in r <==> e in enrollments && e.studentId != studentId
  {
    Filter(enrollments, (e: Enrollment) => e.studentId != studentId)
  }

  /** Removing a student with its rows keeps every constraint of the store. */
  lemma {:induction false} DeleteStudentKeepsConsistent(students: seq<Student>, teachers: seq<Teacher>, courses: seq<Course>,
                                                        enrollments: seq<Enrollment>, k: nat)
    requires Consistent(students, teachers, courses, enrollments)
    requires k < |students|
    ensures Consistent(RemoveAt(students, k), teachers, courses, WithoutStudentRows(enrollments, students[k].id))
  {
    var id := students[k].id;
    var rest := RemoveAt(students, k);
    var rows := WithoutStudentRows(enrollments, id);
    var keep := (e: Enrollment) => e.studentId != id;
    forall i, j | 0 <= i < j < |rows|
      ensures rows[i].id != rows[j].id
      ensures !(rows[i].courseId == rows[j].courseId && rows[i].studentId == rows[j].studentId)
    {
      FilterKeepsOrder(enrollments, keep, i, j);
    }
    forall i, j | 0 <= i < j < |rest| ensures rest[i].id != rest[j].id && rest[i].studentId != rest[j].studentId {
      var i' := if i < k then i else i + 1;
      var j' := if j < k then j else j + 1;
      assert rest[i] == students[i'] && rest[j] == students[j'];
    }
    forall e | e in rows ensures HasStudent(rest, e.studentId) {
      var t :| t in students && t.id == e.studentId;
      var i :| 0 <= i < |students| && students[i] == t;
      if i < k {
        assert rest[i] == t;
      } else {
        assert i > k && rest[i - 1] == t;
      }
    }
  }

  /** Admin only. `DeleteConfirmed` removes the student, and the database
      removes its rows with it. An unknown id changes nothing. */
  method DeleteConfirmed(db: ApplicationDbContext, caller: Principal, id: int) returns (result: ActionResult)
    requires db.Valid()
    modifies db
    ensures db.Valid()
    ensures db.teachers == old(db.teachers) && db.courses == old(db.courses)
    ensures db.nextStudentId == old(db.nextStudentId) && db.nextEnrollmentId == old(db.nextEnrollmentId)
    ensures AdminRole !in caller.roles ==> result == Forbidden
    ensures AdminRole in caller.roles ==> result == Done
    ensures AdminRole !in caller.roles || !HasStudent(old(db.students), id) ==>
              db.students == old(db.students) && db.enrollments == old(db.enrollments)
    ensures AdminRole in caller.roles && HasStudent(old(db.students), id) ==>
      && db.enrollments == WithoutStudentRows(old(db.enrollments), id)
      && exists k :: 0 <= k < |old(db.students)| && old(db.students)[k].id == id && db.students == RemoveAt(old(db.students), k)
  {
    if AdminRole !in caller.roles {
      return Forbidden;
    }
    var found := FindIndex(db.students, (s: Student) => s.id == id);
    if found.None? {
      forall s | s in db.students ensures s.id != id {
        var i :| 0 <= i < |db.students| && db.students[i] == s;
      }
      return Done;
    }
    var k := found.value;
    DeleteStudentKeepsConsistent(db.students, db.teachers, db.courses, db.enrollments, k);
    db.enrollments := WithoutStudentRows(db.enrollments, id);
    db.students := RemoveAt(db.students, k);
    return Done;
  }

  /** Deleting removes exactly the student: every other student remains. */
  lemma DeleteRemovesOnlyTheStudent(students: seq<Student>, k: nat)
    requires k < |students| && StudentKeysUnique(students)
    ensures forall s :: s in RemoveAt(students, k) <==> s in students && s.id != students[k].id
  {
    var r := RemoveAt(students, k);
    forall s | s in students && s.id != students[k].id ensures s in r {
      var i :| 0 <= i < |students| && students[i] == s;
      if i < k { assert r[i] == s; } else { assert r[i - 1] == s; }
    }
    forall s | s in r ensures s in students && s.id != students[k].id {
      var i :| 0 <= i < |r| && r[i] == s;
      if i < k { assert s == students[i]; } else { assert s == students[i + 1]; }
    }
  }
}
