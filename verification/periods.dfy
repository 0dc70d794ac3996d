/** Enrollment periods: the semester normaliser and the rule deciding which
    students may be enrolled for a year and semester. */
module Periods {
  import opened Seqs
  import opened Text
  import opened Models
  import opened Data

  const Winter: string := "Winter"
  const Summer: string := "Summer"

  /** The spellings of the winter semester: English, Macedonian Latin, Macedonian Cyrillic. */
  predicate IsWinterWord(s: string) {
    EqualsIgnoreCase(s, "Winter") || EqualsIgnoreCase(s, "Zimski") || EqualsIgnoreCase(s, "Зимски")
  }

  /** The spellings of the summer semester. */
  predicate IsSummerWord(s: string) {
    EqualsIgnoreCase(s, "Summer") || EqualsIgnoreCase(s, "Leten") || EqualsIgnoreCase(s, "Летен")
  }

  /** Every winter spelling has six letters and starts with W, Z or З. */
  lemma WinterWordShape(s: string)
    requires IsWinterWord(s)
    ensures |s| == 6 && (ToUpperChar(s[0]) == 'W' || ToUpperChar(s[0]) == 'Z' || ToUpperChar(s[0]) == 'З')
  {
    if EqualsIgnoreCase(s, "Winter") {
      assert ToUpperChar(s[0]) == ToUpperChar("Winter"[0]);
    } else if EqualsIgnoreCase(s, "Zimski") {
      assert ToUpperChar(s[0]) == ToUpperChar("Zimski"[0]);
    } else {
      assert ToUpperChar(s[0]) == ToUpperChar("Зимски"[0]);
    }
  }

  /** A six-letter summer spelling starts with S; the others have five letters. */
  lemma SummerWordShape(s: string)
    requires IsSummerWord(s)
    ensures |s| == 5 || (|s| == 6 && ToUpperChar(s[0]) == 'S')
  {
    if EqualsIgnoreCase(s, "Summer") {
      assert ToUpperChar(s[0]) == ToUpperChar("Summer"[0]);
    }
  }

  /** No spelling names both semesters. */
  lemma WordsDisjoint(s: string)
    ensures !(IsWinterWord(s) && IsSummerWord(s))
  {
    if IsWinterWord(s) && IsSummerWord(s) {
      WinterWordShape(s);
      SummerWordShape(s);
    }
  }

  lemma NamesDiffer() ensures Winter != Summer { assert Winter[0] != Summer[0]; }
  lemma WinterTrimmed() ensures Trim(Winter) == Winter { TrimOfTrimmed(Winter); }
  lemma SummerTrimmed() ensures Trim(Summer) == Summer { TrimOfTrimmed(Summer); }
  lemma WinterSpelling() ensures IsWinterWord(Winter) { EqualsIgnoreCaseReflexive(Winter); }
  lemma SummerSpelling() ensures IsSummerWord(Summer) { EqualsIgnoreCaseReflexive(Summer); }
  lemma WinterNotSummer() ensures !IsSummerWord(Winter) { WinterSpelling(); WordsDisjoint(Winter); }

  /** The two canonical names are their own trim and spell their own semester. */
  lemma CanonicalWords()
    ensures Trim(Winter) == Winter && !IsSummerWord(Winter)
    ensures Trim(Summer) == Summer && IsSummerWord(Summer)
  {
    WinterTrimmed();
    WinterNotSummer();
    SummerTrimmed();
    SummerSpelling();
  }

  /** `NormalizeSemester`: "Summer" exactly for a summer spelling (after
      trimming, ignoring case); "Winter" for every other input, the null, blank
      and unrecognised ones included. */
  function NormalizeSemester(sem: Option<string>): (r: string)
    ensures r == Winter || r == Summer
    ensures r == Summer <==> sem.Some? && IsSummerWord(Trim(sem.value))
    ensures sem.Some? && IsWinterWord(Trim(sem.value)) ==> r == Winter
    ensures IsNullOrWhiteSpace(sem) ==> r == Winter
  {
    if IsNullOrWhiteSpace(sem) then Winter
    else
      var t := Trim(sem.value);
      WordsDisjoint(t);
      if EqualsIgnoreCase(t, "Winter") then Winter
      else if EqualsIgnoreCase(t, "Summer") then Summer
      else if EqualsIgnoreCase(t, "Zimski") || EqualsIgnoreCase(t, "Зимски") then Winter
      else if EqualsIgnoreCase(t, "Leten") || EqualsIgnoreCase(t, "Летен") then Summer
      else Winter
  }

  /** Normalising a normalised semester changes nothing. */
  lemma NormalizeIdempotent(sem: Option<string>)
    ensures NormalizeSemester(Some(NormalizeSemester(sem))) == NormalizeSemester(sem)
  {
    CanonicalWords();
  }

  /** The canonical names normalise to themselves. */
  lemma NormalizeCanonical()
    ensures NormalizeSemester(Some(Winter)) == Winter
    ensures NormalizeSemester(Some(Summer)) == Summer
  {
    CanonicalWords();
  }

  /** `(s.CurrentSemester % 2) != 0` under C#'s lifted operators: a student
      without a current semester counts as being in an odd one. The sign of the
      remainder (truncated in C#, Euclidean here) does not change whether it is 0. */
  predicate InOddSemester(s: Student) {
    s.currentSemester.None? || s.currentSemester.value % 2 != 0
  }

  /** Enrolled in the given year, in a semester of the period's parity:
      odd semesters are taught in winter, even ones in summer. */
  predicate IsEligible(s: Student, year: int, semester: Option<string>) {
    && s.enrollmentDate.Some?
    && s.enrollmentDate.value.year == year
    && (InOddSemester(s) <==> NormalizeSemester(semester) == Winter)
  }

  /** Some student with the id is eligible for the period. */
  predicate HasEligibleStudent(students: seq<Student>, id: int, year: int, semester: Option<string>) {
    exists s :: s in students && s.id == id && IsEligible(s, year, semester)
  }

  /** `GetEligibleStudentIds`: the ids of the eligible students. */
  function EligibleStudentIds(students: seq<Student>, year: int, semester: Option<string>): (r: set<int>)
    ensures forall id :: id in r <==> HasEligibleStudent(students, id, year, semester)
    ensures forall id :: id in r ==> HasStudent(students, id)
    ensures forall s :: s in students && IsEligible(s, year, semester) ==> s.id in r
  {
    set s | s in students && IsEligible(s, year, semester) :: s.id
  }

  /** The action normalises the semester and the helper normalises it again;
      the second pass changes nothing. */
  lemma EligibilityIgnoresRenormalising(students: seq<Student>, year: int, semester: Option<string>)
    ensures EligibleStudentIds(students, year, Some(NormalizeSemester(semester))) == EligibleStudentIds(students, year, semester)
  {
    NormalizeIdempotent(semester);
  }

  /** For the canonical names, eligibility is the enrollment year and the
      parity of the current semester. */
  lemma CanonicalEligibility(s: Student, year: int)
    ensures IsEligible(s, year, Some(Winter)) <==>
              s.enrollmentDate.Some? && s.enrollmentDate.value.year == year && InOddSemester(s)
    ensures IsEligible(s, year, Some(Summer)) <==>
              s.enrollmentDate.Some? && s.enrollmentDate.value.year == year && !InOddSemester(s)
  {
    NormalizeCanonical();
    NamesDiffer();
  }

  /** For one year, winter and summer split the students who enrolled that year:
      each such student is eligible for exactly one of the two periods. */
  lemma {:induction false} PeriodsPartitionYear(students: seq<Student>, year: int)
    requires StudentKeysUnique(students)
    ensures EligibleStudentIds(students, year, Some(Winter)) !! EligibleStudentIds(students, year, Some(Summer))
    ensures EligibleStudentIds(students, year, Some(Winter)) + EligibleStudentIds(students, year, Some(Summer))
         == set s | s in students && s.enrollmentDate.Some? && s.enrollmentDate.value.year == year :: s.id
  {
    var w := EligibleStudentIds(students, year, Some(Winter));
    var m := EligibleStudentIds(students, year, Some(Summer));
    var enrolled := set s | s in students && s.enrollmentDate.Some? && s.enrollmentDate.value.year == year :: s.id;
    forall id | id in w ensures id !in m {
      var a :| a in students && IsEligible(a, year, Some(Winter)) && a.id == id;
      CanonicalEligibility(a, year);
      forall b | b in students && b.id == id ensures !IsEligible(b, year, Some(Summer)) {
        SameKeySameStudent(students, a, b);
      }
    }
    forall id | id in enrolled ensures id in w + m {
      var s :| s in students && s.enrollmentDate.Some? && s.enrollmentDate.value.year == year && s.id == id;
      CanonicalEligibility(s, year);
    }
    forall id | id in w + m ensures id in enrolled {
      var s :| s in students && (IsEligible(s, year, Some(Winter)) || IsEligible(s, year, Some(Summer))) && s.id == id;
      CanonicalEligibility(s, year);
    }
  }

  /** A student without a current semester is offered for winter, never for summer. */
  lemma NullSemesterCountsAsWinter(s: Student, year: int, semester: Option<string>)
    requires s.currentSemester.None? && s.enrollmentDate.Some? && s.enrollmentDate.value.year == year
    ensures IsEligible(s, year, semester) <==> NormalizeSemester(semester) == Winter
  {
  }

  /** " zimski " is a winter spelling once trimmed. */
  lemma PaddedZimski()
    ensures IsWinterWord(Trim(" zimski "))
  {
    assert " zimski " == [' '] + "zimski" + [' '];
    TrimOfPadded("zimski");
    ZimskiSpelling();
  }

  lemma ZimskiSpelling() ensures IsWinterWord("zimski")
  {
    assert EqualsIgnoreCase("zimski", "Zimski");
  }

  /** The Cyrillic "Летен" is a summer spelling. */
  lemma CyrillicLeten() ensures IsSummerWord(Trim("Летен"))
  {
    TrimOfTrimmed("Летен");
    EqualsIgnoreCaseReflexive("Летен");
  }

  /** Under any winter and any summer spelling, eligibility comes down to the
      enrollment year and the parity of the current semester. */
  lemma EligibleForSpelledPeriod(s: Student, year: int, winter: string, summer: string)
    requires IsWinterWord(Trim(winter)) && IsSummerWord(Trim(summer))
    ensures IsEligible(s, year, Some(winter)) <==>
              s.enrollmentDate.Some? && s.enrollmentDate.value.year == year && InOddSemester(s)
    ensures IsEligible(s, year, Some(summer)) <==>
              s.enrollmentDate.Some? && s.enrollmentDate.value.year == year && !InOddSemester(s)
  {
    NamesDiffer();
  }

  /** Seed student 1 (enrolled 2022, semester 3) is offered for the 2022
      winter period under any spelling of it, and not for summer or another year. */
  lemma SeedWinterStudent(winter: string, summer: string)
    requires IsWinterWord(Trim(winter)) && IsSummerWord(Trim(summer))
    ensures var petar := Student(1, "201001", "Petar", "Nikolov", Some(Date(2022, 10, 1)), None, Some(3), None, None, None);
            IsEligible(petar, 2022, Some(winter)) && !IsEligible(petar, 2022, Some(summer))
            && !IsEligible(petar, 2023, Some(winter))
  {
    var petar := Student(1, "201001", "Petar", "Nikolov", Some(Date(2022, 10, 1)), None, Some(3), None, None, None);
    assert 3 % 2 == 1;
    assert petar.enrollmentDate.value.year == 2022 && InOddSemester(petar);
    EligibleForSpelledPeriod(petar, 2022, winter, summer);
    assert IsEligible(petar, 2022, Some(winter)) && !IsEligible(petar, 2022, Some(summer));
    EligibleForSpelledPeriod(petar, 2023, winter, summer);
  }

  /** Seed student 5 (enrolled 2020, semester 6) is offered for the 2020
      summer period and not for winter. */
  lemma SeedSummerStudent(summer: string, winter: string)
    requires IsSummerWord(Trim(summer)) && IsWinterWord(Trim(winter))
    ensures var david := Student(5, "201005", "David", "Kirilov", Some(Date(2020, 10, 1)), None, Some(6), None, None, None);
            IsEligible(david, 2020, Some(summer)) && !IsEligible(david, 2020, Some(winter))
  {
    var david := Student(5, "201005", "David", "Kirilov", Some(Date(2020, 10, 1)), None, Some(6), None, None, None);
    assert 6 % 2 == 0;
    assert david.enrollmentDate.value.year == 2020 && !InOddSemester(david);
    EligibleForSpelledPeriod(david, 2020, winter, summer);
    assert IsEligible(david, 2020, Some(summer)) && !IsEligible(david, 2020, Some(winter));
  }
}
