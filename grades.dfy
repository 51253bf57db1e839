/** Grade labels. A student's grade is either one of the three level names 高一, 高二,
    高三, or a cohort label: four digits followed by 级 ("2025级"). The clock's current
    year is a parameter. */
module Grades {
  import opened Common

  predicate IsLevelGrade(g: string)
  {
    g == "高一" || g == "高二" || g == "高三"
  }

  /** Matches /^\d{4}$/. */
  predicate IsBareYear(g: string)
  {
    |g| == 4 && AllDigits(g)
  }

  /** Matches /^\d{4}级$/. */
  predicate IsCohort(g: string)
  {
    |g| == 5 && AllDigits(g[..4]) && g[4] == '级'
  }

  /** What `parseInt` reads from a bare year or a cohort label. */
  function YearOf(g: string): nat
    requires IsBareYear(g) || IsCohort(g)
  {
    DigitsValue(g[..4])
  }

  /** The window of admissible cohort years around the current year. */
  predicate InWindow(year: int, currentYear: int)
  {
    currentYear - 5 <= year <= currentYear + 5
  }

  /** Outcome of validating a grade: the label to store, or the message of a 400 reply. */
  datatype GradeCheck = Accepted(grade: string) | Rejected(message: string)

  const InvalidFormat: string := "无效的年级格式"
  const OutOfRange: string := "年级年份必须在合理范围内"
  const EmptyGrade: string := "年级不能为空"

  /** Validation of a non-empty grade on create and update: a level name passes as is, a
      bare year is given the 级 suffix, and a year must lie in the window. */
  function NormalizeGrade(g: string, currentYear: int): (r: GradeCheck)
    ensures r.Accepted? <==>
      IsLevelGrade(g) || ((IsBareYear(g) || IsCohort(g)) && InWindow(YearOf(g), currentYear))
    ensures r.Accepted? ==> IsLevelGrade(r.grade) || IsCohort(r.grade)
    ensures r.Accepted? ==> r.grade == if IsBareYear(g) then g + "级" else g
    ensures r.Rejected? ==>
      r.message == if IsLevelGrade(g) || IsBareYear(g) || IsCohort(g) then OutOfRange else InvalidFormat
  {
    if !IsLevelGrade(g) && !IsCohort(g) && !IsBareYear(g) then Rejected(InvalidFormat)
    else
      var final := if IsBareYear(g) then g + "级" else g;
      assert IsBareYear(g) ==> final[..4] == g[..4] && IsCohort(final);
      if IsCohort(final) || IsBareYear(g) then
        var year := YearOf(if IsBareYear(g) then g else final);
        if year < currentYear - 5 || year > currentYear + 5 then Rejected(OutOfRange)
        else Accepted(final)
      else Accepted(final)
  }

  /** Grade validation on create: an absent or empty grade is the first rejection. */
  function CreateGrade(grade: Option<string>, currentYear: int): (r: GradeCheck)
    ensures !Truthy(grade) ==> r == Rejected(EmptyGrade)
    ensures Truthy(grade) ==> r == NormalizeGrade(grade.value, currentYear)
  {
    if !Truthy(grade) then Rejected(EmptyGrade) else NormalizeGrade(grade.value, currentYear)
  }

  /** A stored label passes validation again unchanged. */
  lemma NormalizeIdempotent(g: string, currentYear: int)
    requires NormalizeGrade(g, currentYear).Accepted?
    ensures NormalizeGrade(NormalizeGrade(g, currentYear).grade, currentYear) == Accepted(NormalizeGrade(g, currentYear).grade)
  {
    var f := NormalizeGrade(g, currentYear).grade;
    if IsBareYear(g) {
      assert f[..4] == g[..4];
      assert !IsBareYear(f) && IsCohort(f);
    } else {
      assert f == g;
    }
  }

  /** The spreadsheet import of students.js accepts a level name or an in-window cohort
      label, and nothing else: unlike create, a bare year is an error there. */
  predicate ImportGradeOk(g: string, currentYear: int)
  {
    IsLevelGrade(g) || (IsCohort(g) && InWindow(YearOf(g), currentYear))
  }

  /** Whatever the import accepts, create and update store unchanged. */
  lemma ImportStricterThanCreate(g: string, currentYear: int)
    requires ImportGradeOk(g, currentYear)
    ensures NormalizeGrade(g, currentYear) == Accepted(g)
  {
  }

  /** A bare year such as "2025" is rejected by the import but stored as "2025级" by create. */
  lemma BareYearOnlyOnCreate(currentYear: int)
    ensures !ImportGradeOk("2025", currentYear)
    ensures InWindow(2025, currentYear) ==> NormalizeGrade("2025", currentYear) == Accepted("2025级")
  {
    assert IsBareYear("2025");
    assert "2025"[..4] == "2025";
    assert DigitsValue("2025"[..3]) == 202 by {
      assert "2025"[..3] == "202" && "202"[..2] == "20" && "20"[..1] == "2" && "2"[..0] == "";
    }
  }

  /** The cohort label of a year from 1000 to 9999. */
  function CohortLabel(year: nat): (r: string)
    requires 1000 <= year <= 9999
    ensures IsCohort(r) && YearOf(r) == year
  {
    FourDigitYear(year);
    var r := Decimal(year) + "级";
    assert r[..4] == Decimal(year);
    r
  }
}
