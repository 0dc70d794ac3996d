/** The admin's teacher actions: the searchable list, editing a teacher and
    deleting one. */
module Teachers {
  import opened Seqs
  import opened Text
  import opened Models
  import opened Data
  import opened Ordering
  import opened Uploads

  // ---------------------------------------------------------------------------
  // The list (`Index`)
  // ---------------------------------------------------------------------------

  /** The four search boxes; a null degree or rank fails a non-blank filter. */
  predicate TeacherMatches(t: Teacher, firstName: Option<string>, lastName: Option<string>,
                           degree: Option<string>, academicRank: Option<string>) {
    && FilterAccepts(firstName, Some(t.firstName))
    && FilterAccepts(lastName, Some(t.lastName))
    && FilterAccepts(degree, t.degree)
    && FilterAccepts(academicRank, t.academicRank)
  }

  function TeacherOrder(t: Teacher): SortKey {
    SortKey(0, t.lastName, t.firstName)
  }

  /** Admin only. `Index`: the teachers every filter accepts, by last name and
      then first name. */
  function TeacherIndex(caller: Principal, teachers: seq<Teacher>, firstName: Option<string>, lastName: Option<string>,
                        degree: Option<string>, academicRank: Option<string>): (r: Page<seq<Teacher>>)
    ensures r.Redirected? <==> AdminRole !in caller.roles
    ensures r.Redirected? ==> r.outcome == Forbidden
    ensures r.Shown? ==> forall t :: t in r.content <==> t in teachers && TeacherMatches(t, firstName, lastName, degree, academicRank)
    ensures r.Shown? ==> SortedBy(r.content, TeacherOrder)
    ensures r.Shown? ==> forall t :: multiset(r.content)[t] ==
                            if TeacherMatches(t, firstName, lastName, degree, academicRank) then multiset(teachers)[t] else 0
  {
    if AdminRole !in caller.roles then Redirected(Forbidden)
    else
      var matches := t => TeacherMatches(t, firstName, lastName, degree, academicRank);
      var kept := Filter(teachers, matches);
      FilterCounts(teachers, matches);
      SortByMembers(kept, TeacherOrder);
      Shown(SortBy(kept, TeacherOrder))
  }

  /** With every box blank the list holds every teacher. */
  lemma BlankFiltersListEveryTeacher(caller: Principal, teachers: seq<Teacher>, blank: Option<string>)
    requires AdminRole in caller.roles && IsNullOrWhiteSpace(blank)
    ensures var r := TeacherIndex(caller, teachers, blank, blank, blank, blank);
            r.Shown? && forall t :: t in r.content <==> t in teachers
  {
  }

  /** A teacher without a degree is never found by a degree search. */
  lemma NullDegreeFailsDegreeFilter(caller: Principal, teachers: seq<Teacher>, firstName: Option<string>,
                                    lastName: Option<string>, degree: Option<string>, academicRank: Option<string>, t: Teacher)
    requires AdminRole in caller.roles && !IsNullOrWhiteSpace(degree) && t.degree.None?
    ensures var r := TeacherIndex(caller, teachers, firstName, lastName, degree, academicRank);
            r.Shown? && t !in r.content
  {
  }

  // ---------------------------------------------------------------------------
  // Editing (`Edit`)
  // ---------------------------------------------------------------------------

  /** The row `Edit` saves: the submitted fields, with the stored account link
      and the stored picture unless a new picture was sent. */
  function EditedTeacher(form: Teacher, stored: Teacher, image: Option<Upload>, guid: string): (r: Teacher)
    requires !ImageRefused(image)
    ensures r.applicationUserId == stored.applicationUserId
    ensures !HasFile(image) ==> r.profileImagePath == stored.profileImagePath
    ensures HasFile(image) ==> r.profileImagePath.Some? && UploadFolder("teachers") <= r.profileImagePath.value
                               && GetExtension(r.profileImagePath.value) in ImageExtensions
    ensures r.(profileImagePath := form.profileImagePath, applicationUserId := form.applicationUserId) == form
  {
    form.(profileImagePath := KeptImagePath(stored.profileImagePath, image, "teachers", guid),
          applicationUserId := stored.applicationUserId)
  }

  /** Replacing a teacher by a row with the same id keeps every constraint. */
  lemma ReplacingTeacherKeepsConsistent(students: seq<Student>, teachers: seq<Teacher>, courses: seq<Course>,
                                        enrollments: seq<Enrollment>, k: nat, t: Teacher)
    requires Consistent(students, teachers, courses, enrollments)
    requires k < |teachers| && t.id == teachers[k].id
    ensures Consistent(students, teachers[k := t], courses, enrollments)
  {
    var after := teachers[k := t];
    forall id | HasTeacher(teachers, id) ensures HasTeacher(after, id) {
      var old_t :| old_t in teachers && old_t.id == id;
      var i :| 0 <= i < |teachers| && teachers[i] == old_t;
      assert after[i].id == id;
    }
  }

  /** Admin only. `Edit` saves the submitted teacher over the stored one with
      the same id, keeping the account link and, unless a new picture comes, the
      picture. A refused picture throws before the save; an invalid form is
      shown again. */
  method Edit(db: ApplicationDbContext, caller: Principal, id: int, form: Teacher, image: Option<Upload>,
              guid: string, modelValid: bool) returns (result: ActionResult)
    requires db.Valid()
    modifies db
    ensures db.Valid()
    ensures db.students == old(db.students) && db.courses == old(db.courses) && db.enrollments == old(db.enrollments)
    ensures db.nextStudentId == old(db.nextStudentId) && db.nextEnrollmentId == old(db.nextEnrollmentId)
    ensures result != Done ==> db.teachers == old(db.teachers)
    ensures AdminRole !in caller.roles ==> result == Forbidden
    ensures AdminRole in caller.roles ==>
      && (result == NotFound <==> id != form.id || !HasTeacher(old(db.teachers), id))
      && (result == Thrown(ImageError) <==> result != NotFound && ImageRefused(image))
      && (result == InvalidForm <==> result != NotFound && !ImageRefused(image) && !modelValid)
      && (result == Done <==> result != NotFound && !ImageRefused(image) && modelValid)
    ensures result == Done ==> exists k :: (
      && 0 <= k < |old(db.teachers)| && old(db.teachers)[k].id == id
      && !ImageRefused(image)
      && db.teachers == old(db.teachers)[k := EditedTeacher(form, old(db.teachers)[k], image, guid)])
  {
    if AdminRole !in caller.roles {
      return Forbidden;
    }
    if id != form.id {
      return NotFound;
    }
    var found := FindIndex(db.teachers, (t: Teacher) => t.id == id);
    if found.None? {
      forall t | t in db.teachers ensures t.id != id {
        var i :| 0 <= i < |db.teachers| && db.teachers[i] == t;
      }
      return NotFound;
    }
    var k := found.value;
    if ImageRefused(image) {
      return Thrown(ImageError);
    }
    var edited := EditedTeacher(form, db.teachers[k], image, guid);
    if !modelValid {
      return InvalidForm;
    }
    ReplacingTeacherKeepsConsistent(db.students, db.teachers, db.courses, db.enrollments, k, edited);
    db.teachers := db.teachers[k := edited];
    return Done;
  }

  // ---------------------------------------------------------------------------
  // Deleting (`DeleteConfirmed`)
  // ---------------------------------------------------------------------------

  /** A course after the detach loop: a slot holding the teacher is emptied. */
  function DetachedCourse(c: Course, teacherId: int): Course {
    c.(firstTeacherId := if c.firstTeacherId == Some(teacherId) then None else c.firstTeacherId,
       secondTeacherId := if c.secondTeacherId == Some(teacherId) then None else c.secondTeacherId)
  }

  function Detached(courses: seq<Course>, teacherId: int): (r: seq<Course>)
    ensures |r| == |courses|
  {
    seq(|courses|, i requires 0 <= i < |courses| => DetachedCourse(courses[i], teacherId))
  }

  /** After detaching, no course names the teacher; a slot that held someone
      else keeps its value; a course that did not name the teacher is unchanged;
      no other field changes. */
  lemma DetachedExactly(courses: seq<Course>, teacherId: int)
    ensures var r := Detached(courses, teacherId);
      forall i :: 0 <= i < |courses| ==>
        && !r[i].TaughtBy(teacherId)
        && (courses[i].firstTeacherId != Some(teacherId) ==> r[i].firstTeacherId == courses[i].firstTeacherId)
        && (courses[i].secondTeacherId != Some(teacherId) ==> r[i].secondTeacherId == courses[i].secondTeacherId)
        && (!courses[i].TaughtBy(teacherId) ==> r[i] == courses[i])
        && r[i].(firstTeacherId := courses[i].firstTeacherId, secondTeacherId := courses[i].secondTeacherId) == courses[i]
  {
  }

  /** Detaching the teacher and then removing it keeps every constraint of the
      store; removing it without detaching does not, when a course names it
      (`Data.RemovingReferencedTeacherBreaksRefs`). */
  lemma {:induction false} DetachThenRemoveKeepsConsistent(students: seq<Student>, teachers: seq<Teacher>, courses: seq<Course>,
                                                           enrollments: seq<Enrollment>, k: nat)
    requires Consistent(students, teachers, courses, enrollments)
    requires k < |teachers|
    ensures Consistent(students, teachers, Detached(courses, teachers[k].id), enrollments)
    ensures Consistent(students, RemoveAt(teachers, k), Detached(courses, teachers[k].id), enrollments)
  {
    var id := teachers[k].id;
    var rest := RemoveAt(teachers, k);
    var detached := Detached(courses, id);
    assert CourseKeysUnique(detached) by {
      forall i, j | 0 <= i < j < |detached| ensures detached[i].id != detached[j].id {
        assert detached[i].id == courses[i].id && detached[j].id == courses[j].id;
      }
    }
    forall t | HasTeacher(teachers, t) && t != id ensures HasTeacher(rest, t) {
      var x :| x in teachers && x.id == t;
      var i :| 0 <= i < |teachers| && teachers[i] == x;
      if i < k {
        assert rest[i] == x;
      } else {
        assert i > k && rest[i - 1] == x;
      }
    }
    forall c | c in detached
      ensures c.firstTeacherId.Some? ==> HasTeacher(teachers, c.firstTeacherId.value) && HasTeacher(rest, c.firstTeacherId.value)
      ensures c.secondTeacherId.Some? ==> HasTeacher(teachers, c.secondTeacherId.value) && HasTeacher(rest, c.secondTeacherId.value)
    {
      var i :| 0 <= i < |detached| && detached[i] == c;
      assert courses[i] in courses;
    }
    forall cid | HasCourse(courses, cid) ensures HasCourse(detached, cid) {
      var c :| c in courses && c.id == cid;
      var i :| 0 <= i < |courses| && courses[i] == c;
      assert detached[i].id == cid;
    }
    assert TeacherKeysUnique(rest) by {
      forall i, j | 0 <= i < j < |rest| ensures rest[i].id != rest[j].id {
        var i' := if i < k then i else i + 1;
        var j' := if j < k then j else j + 1;
        assert rest[i] == teachers[i'] && rest[j] == teachers[j'];
      }
    }
  }

  /** Admin only. `DeleteConfirmed` empties every course slot that holds the
      teacher, saves, and then removes the teacher. An unknown id changes nothing. */
  method DeleteConfirmed(db: ApplicationDbContext, caller: Principal, id: int) returns (result: ActionResult)
    requires db.Valid()
    modifies db
    ensures db.Valid()
    ensures db.students == old(db.students) && db.enrollments == old(db.enrollments)
    ensures db.nextStudentId == old(db.nextStudentId) && db.nextEnrollmentId == old(db.nextEnrollmentId)
    ensures AdminRole !in caller.roles ==> result == Forbidden
    ensures AdminRole in caller.roles ==> result == Done
    ensures AdminRole !in caller.roles || !HasTeacher(old(db.teachers), id) ==>
              db.teachers == old(db.teachers) && db.courses == old(db.courses)
    ensures AdminRole in caller.roles && HasTeacher(old(db.teachers), id) ==>
      && db.courses == Detached(old(db.courses), id)
      && exists k :: 0 <= k < |old(db.teachers)| && old(db.teachers)[k].id == id && db.teachers == RemoveAt(old(db.teachers), k)
  {
    if AdminRole !in caller.roles {
      return Forbidden;
    }
    var found := FindIndex(db.teachers, (t: Teacher) => t.id == id);
    if found.None? {
      forall t | t in db.teachers ensures t.id != id {
        var i :| 0 <= i < |db.teachers| && db.teachers[i] == t;
      }
      return Done;
    }
    var k := found.value;
    var rows := db.courses;
    var i := 0;
    while i < |rows|
      invariant 0 <= i <= |rows| == |db.courses|
      invariant forall j :: 0 <= j < i ==> rows[j] == DetachedCourse(db.courses[j], id)
      invariant forall j :: i <= j < |rows| ==> rows[j] == db.courses[j]
    {
      var c := rows[i];
      if c.firstTeacherId == Some(id) || c.secondTeacherId == Some(id) {
        if c.firstTeacherId == Some(id) {
          c := c.(firstTeacherId := None);
        }
        if c.secondTeacherId == Some(id) {
          c := c.(secondTeacherId := None);
        }
        rows := rows[i := c];
      }
      assert rows[i] == DetachedCourse(db.courses[i], id);
      i := i + 1;
    }
    assert rows == Detached(db.courses, id);
    DetachThenRemoveKeepsConsistent(db.students, db.teachers, db.courses, db.enrollments, k);
    db.courses := rows;
    db.teachers := RemoveAt(db.teachers, k);
    return Done;
  }

  /** Deleting removes exactly the teacher: every other teacher remains. */
  lemma DeleteRemovesOnlyTheTeacher(teachers: seq<Teacher>, k: nat)
    requires k < |teachers| && TeacherKeysUnique(teachers)
    ensures forall t :: t in RemoveAt(teachers, k) <==> t in teachers && t.id != teachers[k].id
  {
    var r := RemoveAt(teachers, k);
    forall t | t in teachers && t.id != teachers[k].id ensures t in r {
      var i :| 0 <= i < |teachers| && teachers[i] == t;
      if i < k { assert r[i] == t; } else { assert r[i - 1] == t; }
    }
    forall t | t in r ensures t in teachers && t.id != teachers[k].id {
      var i :| 0 <= i < |r| && r[i] == t;
      if i < k { assert t == teachers[i]; } else { assert t == teachers[i + 1]; }
    }
  }
}
