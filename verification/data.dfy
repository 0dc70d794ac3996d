/** The store: the four tables of `ApplicationDbContext` and the keys, unique
    indexes and foreign keys its model configuration declares. The database
    refuses a save that would break any of them, so every action keeps
    `ApplicationDbContext.Valid`. */
module Data {
  import opened Seqs
  import opened Models

  /** What `SaveChangesAsync` throws when the database refuses a save. */
  const SaveError: string := "DbUpdateException"

  /** Primary keys: no two rows of a table share an `Id`. */
  predicate StudentKeysUnique(students: seq<Student>) {
    forall i, j :: 0 <= i < j < |students| ==> students[i].id != students[j].id
  }

  predicate TeacherKeysUnique(teachers: seq<Teacher>) {
    forall i, j :: 0 <= i < j < |teachers| ==> teachers[i].id != teachers[j].id
  }

  predicate CourseKeysUnique(courses: seq<Course>) {
    forall i, j :: 0 <= i < j < |courses| ==> courses[i].id != courses[j].id
  }

  predicate EnrollmentKeysUnique(enrollments: seq<Enrollment>) {
    forall i, j :: 0 <= i < j < |enrollments| ==> enrollments[i].id != enrollments[j].id
  }

  /** The unique index on `Student.StudentId`. */
  predicate StudentIdIndexUnique(students: seq<Student>) {
    forall i, j :: 0 <= i < j < |students| ==> students[i].studentId != students[j].studentId
  }

  /** The unique index on `(Enrollment.CourseId, Enrollment.StudentId)`. */
  predicate CourseStudentIndexUnique(enrollments: seq<Enrollment>) {
    forall i, j :: 0 <= i < j < |enrollments| ==>
      !(enrollments[i].courseId == enrollments[j].courseId && enrollments[i].studentId == enrollments[j].studentId)
  }

  predicate HasStudent(students: seq<Student>, id: int) {
    exists s :: s in students && s.id == id
  }

  predicate HasTeacher(teachers: seq<Teacher>, id: int) {
    exists t :: t in teachers && t.id == id
  }

  predicate HasCourse(courses: seq<Course>, id: int) {
    exists c :: c in courses && c.id == id
  }

  /** The teacher holds a slot of the course with the id. */
  predicate HoldsCourse(courses: seq<Course>, courseId: int, teacherId: int) {
    exists c :: c in courses && c.id == courseId && c.TaughtBy(teacherId)
  }

  /** The optional foreign keys `Course.FirstTeacherId` and `Course.SecondTeacherId`. */
  predicate TeacherRefsResolve(teachers: seq<Teacher>, courses: seq<Course>) {
    forall c :: c in courses ==>
      && (c.firstTeacherId.Some? ==> HasTeacher(teachers, c.firstTeacherId.value))
      && (c.secondTeacherId.Some? ==> HasTeacher(teachers, c.secondTeacherId.value))
  }

  /** The required foreign keys `Enrollment.CourseId` and `Enrollment.StudentId`. */
  predicate EnrollmentRefsResolve(students: seq<Student>, courses: seq<Course>, enrollments: seq<Enrollment>) {
    forall e :: e in enrollments ==> HasCourse(courses, e.courseId) && HasStudent(students, e.studentId)
  }

  /** `[StringLength(width)]`: a null, or a text of at most `width` characters,
      fits the column; a longer value makes the save throw. */
  predicate FitsColumn(v: Option<string>, width: nat) {
    v.None? || |v.value| <= width
  }

  /** Every constraint the database enforces on a save. */
  predicate Consistent(students: seq<Student>, teachers: seq<Teacher>, courses: seq<Course>, enrollments: seq<Enrollment>) {
    && StudentKeysUnique(students)
    && TeacherKeysUnique(teachers)
    && CourseKeysUnique(courses)
    && EnrollmentKeysUnique(enrollments)
    && StudentIdIndexUnique(students)
    && CourseStudentIndexUnique(enrollments)
    && TeacherRefsResolve(teachers, courses)
    && EnrollmentRefsResolve(students, courses, enrollments)
  }

  /** The tables in row order, and the next values of the two identity columns
      that actions insert into. */
  class ApplicationDbContext {
    var students: seq<Student>
    var teachers: seq<Teacher>
    var courses: seq<Course>
    var enrollments: seq<Enrollment>
    var nextStudentId: int
    var nextEnrollmentId: int

    ghost predicate Valid()
      reads this
    {
      && Consistent(students, teachers, courses, enrollments)
      && (forall s :: s in students ==> s.id < nextStudentId)
      && (forall e :: e in enrollments ==> e.id < nextEnrollmentId)
    }

    /** An empty database; identity columns start at 1. */
    constructor ()
      ensures Valid()
      ensures students == [] && teachers == [] && courses == [] && enrollments == []
      ensures nextStudentId == 1 && nextEnrollmentId == 1
    {
      students := [];
      teachers := [];
      courses := [];
      enrollments := [];
      nextStudentId := 1;
      nextEnrollmentId := 1;
    }

    /** `AddRange` of new enrollments followed by `SaveChangesAsync`: the batch,
        numbered from the identity counter, is stored whole when every
        constraint still holds and refused whole otherwise. */
    method SaveNewEnrollments(rows: seq<Enrollment>) returns (saved: bool)
      requires Valid()
      requires forall i :: 0 <= i < |rows| ==> rows[i].id == nextEnrollmentId + i
      modifies this
      ensures Valid()
      ensures students == old(students) && teachers == old(teachers) && courses == old(courses)
      ensures nextStudentId == old(nextStudentId)
      ensures saved <==> Consistent(students, teachers, courses, old(enrollments) + rows)
      ensures saved ==> enrollments == old(enrollments) + rows && nextEnrollmentId == old(nextEnrollmentId) + |rows|
      ensures !saved ==> enrollments == old(enrollments) && nextEnrollmentId == old(nextEnrollmentId)
    {
      saved := Consistent(students, teachers, courses, enrollments + rows);
      if saved {
        forall e | e in enrollments + rows ensures e.id < nextEnrollmentId + |rows| {
          if e !in enrollments {
            var i :| 0 <= i < |rows| && rows[i] == e;
          }
        }
        enrollments := enrollments + rows;
        nextEnrollmentId := nextEnrollmentId + |rows|;
      }
    }
  }

  /** With unique keys, a student row is determined by its id. */
  lemma SameKeySameStudent(students: seq<Student>, a: Student, b: Student)
    requires StudentKeysUnique(students)
    requires a in students && b in students && a.id == b.id
    ensures a == b
  {
    var i :| 0 <= i < |students| && students[i] == a;
    var j :| 0 <= j < |students| && students[j] == b;
    assert i == j;
  }

  /** `DeleteBehavior.Restrict` on both teacher slots: removing a teacher that a
      course still names leaves a dangling reference, which the database refuses.
      This is why teacher deletion detaches the courses first. */
  lemma RemovingReferencedTeacherBreaksRefs(teachers: seq<Teacher>, courses: seq<Course>, k: nat)
    requires k < |teachers| && TeacherKeysUnique(teachers)
    requires exists c :: c in courses && c.TaughtBy(teachers[k].id)
    ensures !TeacherRefsResolve(RemoveAt(teachers, k), courses)
  {
    var rest := RemoveAt(teachers, k);
    var c :| c in courses && c.TaughtBy(teachers[k].id);
    forall t | t in rest ensures t.id != teachers[k].id {
      var i :| 0 <= i < |rest| && rest[i] == t;
      if i >= k {
        assert t == teachers[i + 1];
      }
    }
  }

  /** The unique index on `StudentId` refuses a second student with a taken index number. */
  lemma DuplicateStudentIdBreaksIndex(students: seq<Student>, s: Student)
    requires exists t :: t in students && t.studentId == s.studentId
    ensures !StudentIdIndexUnique(students + [s])
  {
    var t :| t in students && t.studentId == s.studentId;
    var i :| 0 <= i < |students| && students[i] == t;
    var all := students + [s];
    assert all[i] == t && all[|students|] == s;
  }
}
