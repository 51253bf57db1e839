/** The one-off migration from level names to cohort labels: inside one transaction,
    every student whose grade is not yet a cohort label gets one derived from the
    current year; an error rolls the whole migration back. */
module MigrateGrades {
  import opened Common
  import opened Tables
  import opened Schema
  import opened Grades

  /** The label `${year}级`. */
  function YearLabel(year: nat): string
  {
    Decimal(year) + "级"
  }

  /** For years from 1000 to 9999 the label is a cohort label naming that year. */
  lemma YearLabelCohort(year: nat)
    requires 1000 <= year <= 9999
    ensures IsCohort(YearLabel(year)) && YearOf(YearLabel(year)) == year
  {
    FourDigitYear(year);
    assert YearLabel(year)[..4] == Decimal(year);
  }

  /** The new grade of a student, or None when the row is skipped. */
  function NewGrade(g: string, currentYear: nat): (r: Option<string>)
    ensures r.None? <==> IsCohort(g)
  {
    match g
    case "高一" => Some(YearLabel(currentYear + 2))
    case "高二" => Some(YearLabel(currentYear + 1))
    case "高三" => Some(YearLabel(currentYear))
    case _ => if IsCohort(g) then None else Some(YearLabel(currentYear))
  }

  /** 高一 becomes the cohort of the year after next, 高二 of next year, 高三 and every
      unrecognised grade of this year; an existing cohort label is kept. */
  lemma NewGradeYears(g: string, currentYear: nat)
    requires 1000 <= currentYear <= 9997
    ensures NewGrade(g, currentYear).Some? ==> IsCohort(NewGrade(g, currentYear).value)
    ensures g == "高一" ==> YearOf(NewGrade(g, currentYear).value) == currentYear + 2
    ensures g == "高二" ==> YearOf(NewGrade(g, currentYear).value) == currentYear + 1
    ensures (!IsLevelGrade(g) && !IsCohort(g)) || g == "高三" ==> YearOf(NewGrade(g, currentYear).value) == currentYear
  {
    YearLabelCohort(currentYear);
    YearLabelCohort(currentYear + 1);
    YearLabelCohort(currentYear + 2);
  }

  function MigrateRow(s: Student, currentYear: nat): Student
  {
    match NewGrade(s.grade, currentYear)
    case None => s
    case Some(g) => s.(grade := g)
  }

  /** The table after a committed migration; only the grade column is ever written. */
  function MigrateAll(rows: seq<Student>, currentYear: nat): (r: seq<Student>)
    ensures |r| == |rows|
    ensures forall i :: 0 <= i < |r| ==> r[i] == rows[i].(grade := r[i].grade)
  {
    seq(|rows|, i requires 0 <= i < |rows| => MigrateRow(rows[i], currentYear))
  }

  /** Afterwards every grade is a cohort label. */
  lemma MigrateAllCohort(rows: seq<Student>, currentYear: nat)
    requires 1000 <= currentYear <= 9997
    ensures forall i :: 0 <= i < |rows| ==> IsCohort(MigrateAll(rows, currentYear)[i].grade)
  {
    forall i | 0 <= i < |rows| ensures IsCohort(MigrateAll(rows, currentYear)[i].grade) {
      NewGradeYears(rows[i].grade, currentYear);
    }
  }

  /** A second run, in any year, changes nothing. */
  lemma MigrateIdempotent(rows: seq<Student>, currentYear: nat, laterYear: nat)
    requires 1000 <= currentYear <= 9997
    ensures MigrateAll(MigrateAll(rows, currentYear), laterYear) == MigrateAll(rows, currentYear)
  {
    MigrateAllCohort(rows, currentYear);
  }

  /** Rewriting grades only keeps the primary key and the UNIQUE student number. */
  lemma GradeOnlyKeepsOk(rows: seq<Student>, newRows: seq<Student>, next: int)
    requires StudentsOk(rows, next) && |newRows| == |rows|
    requires forall i :: 0 <= i < |rows| ==> newRows[i].id == rows[i].id && newRows[i].studentNo == rows[i].studentNo
    ensures StudentsOk(newRows, next)
  {
  }

  /** migrateGrades. `failAt` is the position of a student whose UPDATE fails, if any;
      the failure rolls back every update and the script exits with status 1. */
  method Migrate(db: Db, currentYear: nat, failAt: Option<nat>) returns (exitCode: int)
    requires db.Valid()
    modifies db`students
    ensures db.Valid()
    ensures exitCode == 0 <==>
      failAt.None? || failAt.value >= |old(db.students)| || IsCohort(old(db.students)[failAt.value].grade)
    ensures exitCode == 0 ==> db.students == MigrateAll(old(db.students), currentYear)
    ensures exitCode != 0 ==> exitCode == 1 && db.students == old(db.students)
  {
    var snapshot := db.students;
    var i := 0;
    while i < |snapshot|
      invariant 0 <= i <= |snapshot| && |db.students| == |snapshot|
      invariant forall k :: 0 <= k < i ==> db.students[k] == MigrateRow(snapshot[k], currentYear)
      invariant forall k :: i <= k < |snapshot| ==> db.students[k] == snapshot[k]
      invariant failAt.Some? && failAt.value < i ==> IsCohort(snapshot[failAt.value].grade)
    {
      var s := snapshot[i];
      var g := NewGrade(s.grade, currentYear);
      if g.Some? {
        if failAt == Some(i) {
          // ROLLBACK
          db.students := snapshot;
          return 1;
        }
        db.students := db.students[i := s.(grade := g.value)];
      }
      i := i + 1;
    }
    GradeOnlyKeepsOk(snapshot, db.students, db.nextStudentId);
    exitCode := 0;
  }
}
