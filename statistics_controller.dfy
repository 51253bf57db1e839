/** The older statistics handler: the number of students in each of the three senior
    high grades, their total, and this month's violation and excellent counts. */
module GradeSummary {
  import opened Common
  import opened Tables
  import opened Schema
  import opened Grouping
  import opened Statistics

  /** The keys the distribution object is created with. */
  const KnownGrades: set<string> := {"高一", "高二", "高三"}

  function IsKnownGrade(s: Student): bool
  {
    s.grade in KnownGrades
  }

  /** `SELECT grade, COUNT(*) FROM students WHERE grade IN ('高一', '高二', '高三') GROUP BY grade`. */
  function GradeStats(students: seq<Student>): seq<(string, nat)>
  {
    GroupCount(Keys(Where(students, IsKnownGrade), GradeOf))
  }

  /** What the fold leaves for grade g: the count of the last row with that grade, or the
      initial 0. */
  function LastCount(rows: seq<(string, nat)>, g: string): nat
    decreases |rows|
  {
    if rows == [] then 0
    else if rows[|rows| - 1].0 == g then rows[|rows| - 1].1
    else LastCount(rows[..|rows| - 1], g)
  }

  /** The counts of the rows whose grade is one of the keys. */
  function KnownSum(rows: seq<(string, nat)>): nat
    decreases |rows|
  {
    if rows == [] then 0
    else KnownSum(rows[..|rows| - 1]) + (if rows[|rows| - 1].0 in KnownGrades then rows[|rows| - 1].1 else 0)
  }

  /** The `forEach` over the grade rows: a row whose grade is a key of the distribution
      overwrites that key and adds to the total; any other row is skipped. */
  method Summarise(rows: seq<(string, nat)>) returns (dist: map<string, nat>, total: nat)
    ensures dist.Keys == KnownGrades
    ensures forall g :: g in dist ==> dist[g] == LastCount(rows, g)
    ensures total == KnownSum(rows)
  {
    dist := map["高一" := 0, "高二" := 0, "高三" := 0];
    total := 0;
    var i := 0;
    while i < |rows|
      invariant 0 <= i <= |rows|
      invariant dist.Keys == KnownGrades
      invariant forall g :: g in dist ==> dist[g] == LastCount(rows[..i], g)
      invariant total == KnownSum(rows[..i])
    {
      var (g, c) := rows[i];
      assert rows[..i + 1][..i] == rows[..i];
      if g in dist {
        dist := dist[g := c];
        total := total + c;
      }
      i := i + 1;
    }
    assert rows[..i] == rows;
  }

  lemma {:induction false} LastCountAbsent(rows: seq<(string, nat)>, g: string)
    requires forall i :: 0 <= i < |rows| ==> rows[i].0 != g
    ensures LastCount(rows, g) == 0
    decreases |rows|
  {
    if rows != [] {
      LastCountAbsent(rows[..|rows| - 1], g);
    }
  }

  /** With one row per grade, as GROUP BY gives, the total is the sum of the three counts. */
  lemma {:induction false} TotalIsSumOfGrades(rows: seq<(string, nat)>)
    requires forall i, j :: 0 <= i < j < |rows| ==> rows[i].0 != rows[j].0
    ensures KnownSum(rows) == LastCount(rows, "高一") + LastCount(rows, "高二") + LastCount(rows, "高三")
    decreases |rows|
  {
    if rows != [] {
      var init := rows[..|rows| - 1];
      var g := rows[|rows| - 1].0;
      TotalIsSumOfGrades(init);
      if g in KnownGrades {
        LastCountAbsent(init, g);
      }
    }
  }

  /** `parseInt(row?.count || 0)`: a missing count row reads as 0. */
  function CountOrZero(row: Option<nat>): (n: nat)
    ensures row.None? ==> n == 0
    ensures row.Some? ==> n == row.value
  {
    match row
    case None => 0
    case Some(c) => if c == 0 then 0 else c
  }

  datatype Summary = Summary(totalStudents: nat, gradeDistribution: map<string, nat>, violation: nat, excellent: nat)

  /** The reply: the summary, or 500 with '获取统计数据失败' and the error's message. */
  datatype Reply = Served(summary: Summary) | Failed(message: string, error: string)

  /** The handler. The two count rows come from queries over this month, whose bounds
      come from the clock; each is None when its query returns no row. `dbError` is the
      message of the error one of the three queries throws, if one does. */
  method GetStatistics(students: seq<Student>, violationRow: Option<nat>, excellentRow: Option<nat>,
                       dbError: Option<string>)
    returns (reply: Reply)
    ensures reply.Failed? <==> dbError.Some?
    ensures reply.Failed? ==> reply.message == "获取统计数据失败" && reply.error == dbError.value
    ensures reply.Served? ==>
      var r := reply.summary;
      && r.gradeDistribution.Keys == KnownGrades
      && (forall g :: g in KnownGrades ==> r.gradeDistribution[g] == |Where(students, KeyIs(GradeOf, g))|)
      && r.totalStudents == r.gradeDistribution["高一"] + r.gradeDistribution["高二"] + r.gradeDistribution["高三"]
      && r.violation == CountOrZero(violationRow) && r.excellent == CountOrZero(excellentRow)
  {
    if dbError.Some? {
      return Failed("获取统计数据失败", dbError.value);
    }
    var rows := GradeStats(students);
    var dist, total := Summarise(rows);
    TotalIsSumOfGrades(rows);
    forall g | g in KnownGrades ensures dist[g] == |Where(students, KeyIs(GradeOf, g))| {
      GradeCount(students, g);
    }
    reply := Served(Summary(total, dist, CountOrZero(violationRow), CountOrZero(excellentRow)));
  }

  /** The fold leaves each of the three grades with its number of students. */
  lemma GradeCount(students: seq<Student>, g: string)
    requires g in KnownGrades
    ensures LastCount(GradeStats(students), g) == |Where(students, KeyIs(GradeOf, g))|
  {
    var known := Where(students, IsKnownGrade);
    CountMatches(known, GradeOf, g);
    LastCountIsCount(Keys(known, GradeOf), g);
    KnownGradeFilter(students, g);
  }

  /** Over grouped rows, the fold's value for g is the number of rows with key g. */
  lemma LastCountIsCount(keys: seq<string>, g: string)
    ensures LastCount(GroupCount(keys), g) == multiset(keys)[g]
  {
    var rows := GroupCount(keys);
    if HasKey(rows, g) {
      var i :| 0 <= i < |rows| && rows[i].0 == g;
      LastIsOnly(rows, i);
    } else {
      LastCountAbsent(rows, g);
    }
  }

  /** For one of the three grades, the `WHERE grade IN (...)` filter drops none of its students. */
  lemma KnownGradeFilter(students: seq<Student>, g: string)
    requires g in KnownGrades
    ensures Where(Where(students, IsKnownGrade), KeyIs(GradeOf, g)) == Where(students, KeyIs(GradeOf, g))
  {
    WhereNested(students, IsKnownGrade, KeyIs(GradeOf, g));
    WhereSame(students, (s: Student) => IsKnownGrade(s) && KeyIs(GradeOf, g)(s), KeyIs(GradeOf, g));
  }

  /** With distinct grades, the last row of g is its only row. */
  lemma {:induction false} LastIsOnly(rows: seq<(string, nat)>, i: nat)
    requires i < |rows| && forall a, b :: 0 <= a < b < |rows| ==> rows[a].0 != rows[b].0
    ensures LastCount(rows, rows[i].0) == rows[i].1
    decreases |rows|
  {
    if i < |rows| - 1 {
      var init := rows[..|rows| - 1];
      assert init[i] == rows[i];
      LastIsOnly(init, i);
    }
  }

  /** Filtering twice is filtering by both conditions. */
  lemma {:induction false} WhereNested<T(!new)>(rows: seq<T>, p: T -> bool, q: T -> bool)
    ensures Where(Where(rows, p), q) == Where(rows, (x: T) => p(x) && q(x))
    decreases |rows|
  {
    if rows != [] {
      WhereNested(rows[1..], p, q);
    }
  }
}
