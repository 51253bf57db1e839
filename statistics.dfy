/** GET /api/statistics: the dashboard. Every figure but the student count and the
    grade distribution is computed over the same joined rows, one per behavior whose
    student exists, narrowed by the optional start date, end date and grade of the
    query string. */
module Statistics {
  import opened Common
  import opened Tables
  import opened Sorting
  import opened Schema
  import opened Filters
  import opened Grouping

  const Violation: string := "违纪"
  const Excellent: string := "优秀"

  /** The query string of the dashboard: three optional texts. */
  datatype DashQuery = DashQuery(start: Option<string>, end: Option<string>, grade: Option<string>)

  /** The dashboard filter: a bound or grade that is absent or empty does not narrow. */
  predicate DashMatch(f: Fact, q: DashQuery)
  {
    && (Truthy(q.start) ==> TextLe(q.start.value, f.date))
    && (Truthy(q.end) ==> TextLe(f.date, q.end.value))
    && (Truthy(q.grade) ==> f.grade == Some(q.grade.value))
  }

  /** The `dateCondition` and `gradeCondition` texts and their parameters, in the order
      the query binds them. A date the clock cannot parse or a grade outside the three
      known ones only draws a console warning: the condition is appended all the same. */
  method BuildDashboardFilter(q: DashQuery) returns (conds: seq<Placeholder>, params: seq<Value>)
    ensures |conds| == |params|
    ensures conds == (if Truthy(q.start) then [DateFrom] else []) + (if Truthy(q.end) then [DateTo] else [])
                   + (if Truthy(q.grade) then [GradeEq] else [])
    ensures forall f :: Satisfies(f, conds, params) <==> DashMatch(f, q)
  {
    conds, params := [], [];
    conds, params := AddCondition(conds, params, Truthy(q.start), DateFrom, Text(q.start));
    conds, params := AddCondition(conds, params, Truthy(q.end), DateTo, Text(q.end));
    conds, params := AddCondition(conds, params, Truthy(q.grade), GradeEq, Text(q.grade));
  }

  /** One row of `behaviors b JOIN students s ON b.student_id = s.id`, with the category
      of the behavior's type (None when no type has that name). */
  datatype Joined = Joined(b: Behavior, s: Student, category: Option<string>)

  /** `bt.category` of the type named `name`; names are unique, so there is at most one. */
  function CategoryOf(types: seq<BehaviorType>, name: string): (r: Option<string>)
    ensures r.None? <==> !TypeExists(types, name)
    ensures r.Some? ==> exists i :: 0 <= i < |types| && types[i].name == name && types[i].category == r.value
  {
    match Find(types, TypeNameOf, name)
    case None => None
    case Some(k) => Some(types[k].category)
  }

  function JoinRow(b: Behavior, students: seq<Student>, types: seq<BehaviorType>): Option<Joined>
  {
    match Find(students, StudentKey, b.studentId)
    case None => None
    case Some(k) => Some(Joined(b, students[k], CategoryOf(types, b.behaviorType)))
  }

  /** The join in behaviors' table order: a behavior whose student is gone has no row. */
  function JoinAll(bs: seq<Behavior>, students: seq<Student>, types: seq<BehaviorType>): (r: seq<Joined>)
    ensures forall j :: j in r <==> j.b in bs && JoinRow(j.b, students, types) == Some(j)
    decreases |bs|
  {
    if bs == [] then []
    else
      var rest := JoinAll(bs[1..], students, types);
      assert bs == [bs[0]] + bs[1..];
      match JoinRow(bs[0], students, types)
      case None => rest
      case Some(j) => [j] + rest
  }

  /** The columns of a joined row the filter reads. */
  function FactOf(j: Joined): Fact
  {
    Fact(j.b.studentId, j.b.behaviorType, j.category, j.b.date, Some(j.s.grade))
  }

  function InFilter(q: DashQuery): Joined -> bool
  {
    (j: Joined) => DashMatch(FactOf(j), q)
  }

  /** The rows that also join a behavior type (`JOIN behavior_types bt`). */
  function Typed(q: DashQuery): Joined -> bool
  {
    (j: Joined) => j.category.Some? && DashMatch(FactOf(j), q)
  }

  /** The rows whose type is a violation (`WHERE bt.category = '违纪'`). */
  function Violations(q: DashQuery): Joined -> bool
  {
    (j: Joined) => j.category == Some(Violation) && DashMatch(FactOf(j), q)
  }

  /** `SELECT COUNT(*) FROM students [WHERE grade = ?]`: the grade narrows, the dates do not. */
  function InGrade(grade: Option<string>): Student -> bool
  {
    (s: Student) => !Truthy(grade) || s.grade == grade.value
  }

  function GradeOf(s: Student): string { s.grade }

  function StudentIdOf(j: Joined): int { j.b.studentId }

  /** The category of a typed row (the rows these are read from always have one). */
  function CategoryText(j: Joined): string
  {
    if j.category.Some? then j.category.value else ""
  }

  // ---------------------------------------------------------------------------
  // Grade distribution

  /** `gradeDist.reduce((acc, r) => { acc[r.grade] = r.count; return acc }, {})`:
      a later row for the same grade overwrites an earlier one. */
  function Fold(rows: seq<(string, nat)>): (m: map<string, nat>)
    ensures forall g :: g in m <==> HasKey(rows, g)
    decreases |rows|
  {
    if rows == [] then map[]
    else
      var init := rows[..|rows| - 1];
      var last := rows[|rows| - 1];
      var m := Fold(init)[last.0 := last.1];
      assert forall g :: HasKey(rows, g) <==> HasKey(init, g) || g == last.0 by {
        forall g ensures HasKey(rows, g) <==> HasKey(init, g) || g == last.0 {
          if HasKey(init, g) {
            var i :| 0 <= i < |init| && init[i].0 == g;
            assert rows[i] == init[i];
          }
          if HasKey(rows, g) && g != last.0 {
            var i :| 0 <= i < |rows| && rows[i].0 == g;
            assert i < |init| && init[i] == rows[i];
          }
        }
      }
      m
  }

  /** The value a key ends up with is that of its last row. */
  lemma {:induction false} LastRowWins(rows: seq<(string, nat)>, i: nat)
    requires i < |rows|
    requires forall j :: i < j < |rows| ==> rows[j].0 != rows[i].0
    ensures rows[i].0 in Fold(rows) && Fold(rows)[rows[i].0] == rows[i].1
    decreases |rows|
  {
    assert HasKey(rows, rows[i].0);
    if i < |rows| - 1 {
      var init := rows[..|rows| - 1];
      assert init[i] == rows[i];
      LastRowWins(init, i);
    }
  }

  /** `SELECT grade, COUNT(*) FROM students GROUP BY grade`, folded into an object. */
  function GradeDistribution(students: seq<Student>): map<string, nat>
  {
    Fold(GroupCount(Keys(students, GradeOf)))
  }

  /** Every grade some student has is a key, mapped to the number of its students, and
      there is no other key. */
  lemma GradeDistributionCounts(students: seq<Student>, g: string)
    ensures g in GradeDistribution(students) <==> exists s :: s in students && s.grade == g
    ensures g in GradeDistribution(students) ==> GradeDistribution(students)[g] == |Where(students, KeyIs(GradeOf, g))| > 0
  {
    var groups := GroupCount(Keys(students, GradeOf));
    GroupOfRow(students, GradeOf, g);
    if HasKey(groups, g) {
      var i :| 0 <= i < |groups| && groups[i].0 == g;
      LastRowWins(groups, i);
      CountMatches(students, GradeOf, g);
    }
  }

  // ---------------------------------------------------------------------------
  // Behavior statistics by category

  /** One row of `behavior_stats`. COUNT(DISTINCT b.id) counts rows, behavior ids being a
      primary key; the percentage divides by the student count of the overview and is
      NULL when that count is zero. */
  datatype CategoryStat = CategoryStat(category: string, totalCount: nat, studentCount: nat, percentage: Option<real>)

  /** `x * 100.0 / n`, which SQLite makes NULL when n is zero. */
  function Percent(x: nat, n: nat): (r: Option<real>)
    ensures r.None? <==> n == 0
    ensures r.Some? ==> r.value >= 0.0
  {
    if n == 0 then None else Some((x as real) * 100.0 / (n as real))
  }

  /** A group's rows and, among them, the distinct students (`COUNT(DISTINCT b.student_id)`). */
  function DistinctStudents(rows: seq<Joined>): nat
  {
    |GroupCount(Keys(rows, StudentIdOf))|
  }

  lemma DistinctStudentsBounds(rows: seq<Joined>)
    ensures DistinctStudents(rows) <= |rows|
    ensures rows != [] ==> DistinctStudents(rows) > 0
  {
    GroupsAtMostRows(Keys(rows, StudentIdOf));
    if rows != [] {
      SomeGroup(Keys(rows, StudentIdOf));
    }
  }

  function StatFor(rows: seq<Joined>, c: string, studentTotal: nat): CategoryStat
  {
    var inC := Where(rows, KeyIs(CategoryText, c));
    CategoryStat(c, |inC|, DistinctStudents(inC), Percent(|inC|, studentTotal))
  }

  /** `GROUP BY bt.category` over the typed rows. */
  function CategoryStats(rows: seq<Joined>, studentTotal: nat): (r: seq<CategoryStat>)
    ensures |r| == |GroupCount(Keys(rows, CategoryText))|
    ensures forall i :: 0 <= i < |r| ==> r[i] == StatFor(rows, GroupCount(Keys(rows, CategoryText))[i].0, studentTotal)
  {
    var groups := GroupCount(Keys(rows, CategoryText));
    seq(|groups|, i requires 0 <= i < |groups| => StatFor(rows, groups[i].0, studentTotal))
  }

  /** One entry per category that occurs among the rows, and no other. */
  lemma CategoryStatsCover(rows: seq<Joined>, studentTotal: nat, c: string)
    ensures (exists x :: x in CategoryStats(rows, studentTotal) && x.category == c)
            <==> exists j :: j in rows && CategoryText(j) == c
  {
    var groups := GroupCount(Keys(rows, CategoryText));
    var r := CategoryStats(rows, studentTotal);
    GroupOfRow(rows, CategoryText, c);
    if exists x :: x in r && x.category == c {
      var x :| x in r && x.category == c;
      var i :| 0 <= i < |r| && r[i] == x;
      assert groups[i].0 == c;
    }
    if HasKey(groups, c) {
      var i :| 0 <= i < |groups| && groups[i].0 == c;
      assert r[i] in r;
    }
  }

  /** Each entry counts the rows of its category, and between one of them and all of
      them distinct students; no category is listed twice. */
  lemma CategoryStatBounds(rows: seq<Joined>, studentTotal: nat, i: nat)
    requires i < |CategoryStats(rows, studentTotal)|
    ensures var x := CategoryStats(rows, studentTotal)[i];
      && x.totalCount == |Where(rows, KeyIs(CategoryText, x.category))|
      && 0 < x.studentCount <= x.totalCount
      && forall k :: 0 <= k < |CategoryStats(rows, studentTotal)| && k != i ==> CategoryStats(rows, studentTotal)[k].category != x.category
  {
    var groups := GroupCount(Keys(rows, CategoryText));
    var c := groups[i].0;
    CountMatches(rows, CategoryText, c);
    DistinctStudentsBounds(Where(rows, KeyIs(CategoryText, c)));
  }

  // ---------------------------------------------------------------------------
  // Type distribution and its colours

  /** One row of the type distribution; the percentage divides by the number of ALL
      behaviors of the category, neither joined to students nor filtered. */
  datatype TypeShare = TypeShare(name: string, category: string, value: nat, percentage: Option<real>)

  function TypeKey(j: Joined): (string, string) { (j.b.behaviorType, CategoryText(j)) }

  /** `behavior_type IN (SELECT name FROM behavior_types WHERE category = c)`. */
  function OfCategory(types: seq<BehaviorType>, c: string): Behavior -> bool
  {
    (b: Behavior) => CategoryOf(types, b.behaviorType) == Some(c)
  }

  function ShareCategory(t: TypeShare): string { t.category }

  function MoreValue(): (TypeShare, TypeShare) -> bool
  {
    (a: TypeShare, b: TypeShare) => a.value >= b.value
  }

  /** `ORDER BY bt.category, value DESC`. */
  function ShareOrder(): (TypeShare, TypeShare) -> bool
  {
    Lex(AscBy(ShareCategory), MoreValue())
  }

  function ShareOf(g: ((string, string), nat), bs: seq<Behavior>, types: seq<BehaviorType>): TypeShare
  {
    TypeShare(g.0.0, g.0.1, g.1, Percent(g.1, |Where(bs, OfCategory(types, g.0.1))|))
  }

  function Shares(rows: seq<Joined>, bs: seq<Behavior>, types: seq<BehaviorType>): (r: seq<TypeShare>)
    ensures |r| == |GroupCount(Keys(rows, TypeKey))|
    ensures forall i :: 0 <= i < |r| ==> r[i] == ShareOf(GroupCount(Keys(rows, TypeKey))[i], bs, types)
  {
    var groups := GroupCount(Keys(rows, TypeKey));
    seq(|groups|, i requires 0 <= i < |groups| => ShareOf(groups[i], bs, types))
  }

  /** `GROUP BY b.behavior_type, bt.category ORDER BY bt.category, value DESC` over the
      typed rows. */
  function TypeDistribution(rows: seq<Joined>, bs: seq<Behavior>, types: seq<BehaviorType>): (r: seq<TypeShare>)
    ensures Sorted(r, ShareOrder())
    ensures multiset(r) == multiset(Shares(rows, bs, types))
  {
    AscByPreorder(ShareCategory);
    LexPreorder(AscBy(ShareCategory), MoreValue());
    SortSorted(Shares(rows, bs, types), ShareOrder());
    Sort(Shares(rows, bs, types), ShareOrder())
  }

  /** An entry counts the rows of its type. */
  lemma TypeShareCounts(rows: seq<Joined>, bs: seq<Behavior>, types: seq<BehaviorType>, x: TypeShare)
    requires x in TypeDistribution(rows, bs, types)
    ensures x.value == |Where(rows, KeyIs(TypeKey, (x.name, x.category)))| > 0
  {
    var shares := Shares(rows, bs, types);
    SortMembers(shares, ShareOrder(), x);
    var i :| 0 <= i < |shares| && shares[i] == x;
    CountMatches(rows, TypeKey, GroupCount(Keys(rows, TypeKey))[i].0);
  }

  /** One entry per type and category that occurs among the rows, and no other. */
  lemma TypeDistributionCover(rows: seq<Joined>, bs: seq<Behavior>, types: seq<BehaviorType>, name: string, c: string)
    ensures (exists x :: x in TypeDistribution(rows, bs, types) && x.name == name && x.category == c)
            <==> exists j :: j in rows && TypeKey(j) == (name, c)
  {
    var groups := GroupCount(Keys(rows, TypeKey));
    var shares := Shares(rows, bs, types);
    var r := TypeDistribution(rows, bs, types);
    GroupOfRow(rows, TypeKey, (name, c));
    if exists x :: x in r && x.name == name && x.category == c {
      var x :| x in r && x.name == name && x.category == c;
      SortMembers(shares, ShareOrder(), x);
      var i :| 0 <= i < |shares| && shares[i] == x;
      assert groups[i].0 == (name, c);
    }
    if HasKey(groups, (name, c)) {
      var i :| 0 <= i < |groups| && groups[i].0 == (name, c);
      SortMembers(shares, ShareOrder(), shares[i]);
    }
  }

  /** No two entries are equal: the groups have distinct keys. */
  lemma TypeDistributionDistinct(rows: seq<Joined>, bs: seq<Behavior>, types: seq<BehaviorType>)
    ensures Distinct(TypeDistribution(rows, bs, types))
  {
    var groups := GroupCount(Keys(rows, TypeKey));
    var shares := Shares(rows, bs, types);
    forall i, j | 0 <= i < j < |shares| ensures shares[i] != shares[j] {
      assert groups[i].0 != groups[j].0;
    }
    DistinctPermutation(shares, TypeDistribution(rows, bs, types));
  }

  /** A type that occurs among the dashboard's typed rows belongs to at least one
      behavior of its category, so its percentage is never NULL. */
  lemma SharePercentDefined(bs: seq<Behavior>, students: seq<Student>, types: seq<BehaviorType>,
                            q: DashQuery, x: TypeShare)
    requires x in TypeDistribution(Where(JoinAll(bs, students, types), Typed(q)), bs, types)
    ensures x.percentage.Some?
  {
    var rows := Where(JoinAll(bs, students, types), Typed(q));
    SharePercentOfCategory(rows, bs, types, x);
    TypeShareCounts(rows, bs, types, x);
    var inType := Where(rows, KeyIs(TypeKey, (x.name, x.category)));
    var j := inType[0];
    assert j in inType;
    TypedRowOfCategory(bs, students, types, q, j);
  }

  /** An entry's percentage divides by the size of its category. */
  lemma SharePercentOfCategory(rows: seq<Joined>, bs: seq<Behavior>, types: seq<BehaviorType>, x: TypeShare)
    requires x in TypeDistribution(rows, bs, types)
    ensures x.percentage == Percent(x.value, |Where(bs, OfCategory(types, x.category))|)
  {
    var shares := Shares(rows, bs, types);
    SortMembers(shares, ShareOrder(), x);
    var i :| 0 <= i < |shares| && shares[i] == x;
  }

  /** The behavior of a typed row belongs to the row's category. */
  lemma TypedRowOfCategory(bs: seq<Behavior>, students: seq<Student>, types: seq<BehaviorType>,
                           q: DashQuery, j: Joined)
    requires j in Where(JoinAll(bs, students, types), Typed(q))
    ensures j.b in Where(bs, OfCategory(types, CategoryText(j)))
  {
    assert j in JoinAll(bs, students, types);
    assert OfCategory(types, CategoryText(j))(j.b);
  }

  const ViolationColors: seq<string> := ["#FF6B6B", "#FF8787", "#FFA5A5", "#FF9F43", "#FFC069", "#FFE0B2"]
  const ExcellentColors: seq<string> := ["#4ECDC4", "#45B7D1", "#96CEB4", "#52C41A", "#73D13D", "#95DE64"]

  /** `Array.prototype.indexOf`: the first position of x, or -1. */
  function IndexOf<T(==)>(s: seq<T>, x: T): (i: int)
    ensures -1 <= i < |s|
    ensures i == -1 <==> x !in s
    ensures i >= 0 ==> s[i] == x && forall j :: 0 <= j < i ==> s[j] != x
    decreases |s|
  {
    if s == [] then -1
    else if s[0] == x then 0
    else
      var i := IndexOf(s[1..], x);
      if i == -1 then -1 else i + 1
  }

  /** `colors[i % colors.length]`: JavaScript's `%` keeps the sign of i, so -1 reads
      index -1, which is undefined. */
  function PaletteAt(colors: seq<string>, i: int): (r: Option<string>)
    requires |colors| > 0
    ensures r.None? <==> i < 0
    ensures r.Some? ==> r.value in colors
  {
    if i < 0 then None else Some(colors[i % |colors|])
  }

  function InCategory(c: string): TypeShare -> bool
  {
    (t: TypeShare) => t.category == c
  }

  /** The colour of the k-th entry: its position among the violation entries picks from
      the red palette; every other entry takes its position among the excellent entries
      in the green one, which is -1 for a category that is neither. */
  function ColourAt(dist: seq<TypeShare>, k: nat): Option<string>
    requires k < |dist|
  {
    if dist[k].category == Violation then PaletteAt(ViolationColors, IndexOf(Where(dist, InCategory(Violation)), dist[k]))
    else PaletteAt(ExcellentColors, IndexOf(Where(dist, InCategory(Excellent)), dist[k]))
  }

  /** An entry as sent: the percentage rendered by the template literal with a '%'
      appended, and the colour. `show` is JavaScript's rendering of the number (or of
      null). */
  datatype Coloured = Coloured(name: string, category: string, value: nat, percentage: string, color: Option<string>)

  function ColourAll(dist: seq<TypeShare>, show: Option<real> -> string): (r: seq<Coloured>)
    ensures |r| == |dist|
    ensures forall k :: 0 <= k < |r| ==>
      && r[k].name == dist[k].name && r[k].category == dist[k].category && r[k].value == dist[k].value
      && r[k].percentage == show(dist[k].percentage) + "%"
      && r[k].color == ColourAt(dist, k)
  {
    seq(|dist|, k requires 0 <= k < |dist| =>
      Coloured(dist[k].name, dist[k].category, dist[k].value, show(dist[k].percentage) + "%", ColourAt(dist, k)))
  }

  /** How many entries of the same category come before the k-th. */
  function Rank(dist: seq<TypeShare>, k: nat): nat
    requires k < |dist|
  {
    |Where(dist[..k], InCategory(dist[k].category))|
  }

  /** The k-th entry sits at its rank among the entries of its category, after entries
      that all come before it. */
  lemma AtRank(dist: seq<TypeShare>, k: nat)
    requires k < |dist|
    ensures var same := Where(dist, InCategory(dist[k].category));
      && Rank(dist, k) < |same| && same[Rank(dist, k)] == dist[k]
      && forall j :: 0 <= j < Rank(dist, k) ==> same[j] in dist[..k]
  {
    var p := InCategory(dist[k].category);
    var before := Where(dist[..k], p);
    assert dist == dist[..k] + ([dist[k]] + dist[k + 1..]);
    WhereAppend(dist[..k], [dist[k]] + dist[k + 1..], p);
    WhereCons(dist[k], dist[k + 1..], p);
    var same := Where(dist, p);
    assert same == before + ([dist[k]] + Where(dist[k + 1..], p));
    forall j | 0 <= j < |before| ensures same[j] in dist[..k] {
      assert same[j] == before[j];
    }
  }

  /** On entries without repeats, `indexOf` within the category finds the entry at its rank. */
  lemma RankIsIndexOf(dist: seq<TypeShare>, k: nat)
    requires Distinct(dist) && k < |dist|
    ensures IndexOf(Where(dist, InCategory(dist[k].category)), dist[k]) == Rank(dist, k)
  {
    AtRank(dist, k);
  }

  /** Entries of the two coloured categories are coloured by rank; any other category
      gets no colour. */
  lemma ColourByRank(dist: seq<TypeShare>, k: nat)
    requires Distinct(dist) && k < |dist|
    ensures dist[k].category == Violation ==> ColourAt(dist, k) == Some(ViolationColors[Rank(dist, k) % 6])
    ensures dist[k].category == Excellent ==> ColourAt(dist, k) == Some(ExcellentColors[Rank(dist, k) % 6])
    ensures dist[k].category != Violation && dist[k].category != Excellent ==> ColourAt(dist, k).None?
  {
    RankIsIndexOf(dist, k);
    if dist[k].category != Violation && dist[k].category != Excellent {
      assert dist[k] !in Where(dist, InCategory(Excellent));
    }
  }

  /** A later entry of the same category ranks strictly higher. */
  lemma RankGrows(dist: seq<TypeShare>, k1: nat, k2: nat)
    requires k1 < k2 < |dist| && dist[k1].category == dist[k2].category
    ensures Rank(dist, k1) < Rank(dist, k2)
  {
    var p := InCategory(dist[k1].category);
    assert dist[..k2] == dist[..k1] + dist[k1..k2];
    WhereAppend(dist[..k1], dist[k1..k2], p);
    assert dist[k1..k2] == [dist[k1]] + dist[k1 + 1..k2];
  }

  /** Within a coloured category, entries fewer than six ranks apart never share a
      colour: each palette holds six different colours. */
  lemma NearbyColoursDiffer(dist: seq<TypeShare>, k1: nat, k2: nat)
    requires Distinct(dist) && k1 < k2 < |dist|
    requires dist[k1].category == dist[k2].category
    requires dist[k1].category == Violation || dist[k1].category == Excellent
    requires Rank(dist, k2) - Rank(dist, k1) < 6
    ensures ColourAt(dist, k1) != ColourAt(dist, k2)
  {
    ColourByRank(dist, k1);
    ColourByRank(dist, k2);
    RankGrows(dist, k1, k2);
    ResiduesDiffer(Rank(dist, k1), Rank(dist, k2));
    PalettesDistinct(Rank(dist, k1) % 6, Rank(dist, k2) % 6);
  }

  /** Two numbers fewer than six apart leave different remainders modulo 6. */
  lemma ResiduesDiffer(x: nat, y: nat)
    requires x < y < x + 6
    ensures x % 6 != y % 6
  {
    assert x == 6 * (x / 6) + x % 6 && y == 6 * (y / 6) + y % 6;
  }

  /** Each palette holds six different colours. */
  lemma PalettesDistinct(a: nat, b: nat)
    requires a < 6 && b < 6 && a != b
    ensures ViolationColors[a] != ViolationColors[b] && ExcellentColors[a] != ExcellentColors[b]
  {
    assert ViolationColors[a][3] != ViolationColors[b][3];
    assert ExcellentColors[a][1] != ExcellentColors[b][1] || ExcellentColors[a][2] != ExcellentColors[b][2];
  }

  // ---------------------------------------------------------------------------
  // Class ranking and recent violations

  /** One row of the class ranking: a grade and class, its violations and the distinct
      students among them. */
  datatype ClassRow = ClassRow(grade: string, klass: Option<string>, count: nat, studentCount: nat)

  function ClassOf(j: Joined): (string, Option<string>) { (j.s.grade, j.s.klass) }

  function ClassRowFor(rows: seq<Joined>, g: ((string, Option<string>), nat)): ClassRow
  {
    ClassRow(g.0.0, g.0.1, g.1, DistinctStudents(Where(rows, KeyIs(ClassOf, g.0))))
  }

  function ClassRows(rows: seq<Joined>): (r: seq<ClassRow>)
    ensures |r| == |GroupCount(Keys(rows, ClassOf))|
    ensures forall i :: 0 <= i < |r| ==> r[i] == ClassRowFor(rows, GroupCount(Keys(rows, ClassOf))[i])
  {
    var groups := GroupCount(Keys(rows, ClassOf));
    seq(|groups|, i requires 0 <= i < |groups| => ClassRowFor(rows, groups[i]))
  }

  function MoreViolations(): (ClassRow, ClassRow) -> bool
  {
    (a: ClassRow, b: ClassRow) => a.count >= b.count
  }

  /** `GROUP BY s.grade, s.class ORDER BY count DESC` over the violation rows. */
  function RankedClasses(rows: seq<Joined>): (r: seq<ClassRow>)
    ensures Sorted(r, MoreViolations())
    ensures multiset(r) == multiset(ClassRows(rows))
  {
    SortSorted(ClassRows(rows), MoreViolations());
    Sort(ClassRows(rows), MoreViolations())
  }

  /** An entry counts the violations of its class, and between one of them and all of
      them distinct students. */
  lemma ClassRowCounts(rows: seq<Joined>, x: ClassRow)
    requires x in RankedClasses(rows)
    ensures x.count == |Where(rows, KeyIs(ClassOf, (x.grade, x.klass)))|
    ensures 0 < x.studentCount <= x.count
  {
    var all := ClassRows(rows);
    SortMembers(all, MoreViolations(), x);
    var i :| 0 <= i < |all| && all[i] == x;
    var g := GroupCount(Keys(rows, ClassOf))[i];
    CountMatches(rows, ClassOf, g.0);
    DistinctStudentsBounds(Where(rows, KeyIs(ClassOf, g.0)));
  }

  /** Every class with a violation has an entry. */
  lemma ClassRowsCover(rows: seq<Joined>, j: Joined)
    requires j in rows
    ensures exists x :: x in RankedClasses(rows) && (x.grade, x.klass) == ClassOf(j)
  {
    var groups := GroupCount(Keys(rows, ClassOf));
    GroupOfRow(rows, ClassOf, ClassOf(j));
    var i :| 0 <= i < |groups| && groups[i].0 == ClassOf(j);
    SortMembers(ClassRows(rows), MoreViolations(), ClassRows(rows)[i]);
  }

  /** `LIMIT 10`: the ten classes with the most violations, and no class left out has
      more than any class shown. */
  function ClassRanking(rows: seq<Joined>): (r: seq<ClassRow>)
    ensures |r| == if |RankedClasses(rows)| < 10 then |RankedClasses(rows)| else 10
    ensures forall x :: x in r ==> x in RankedClasses(rows)
    ensures forall i, j :: 0 <= i < |r| && 10 <= j < |RankedClasses(rows)| ==> RankedClasses(rows)[j].count <= r[i].count
  {
    var ranked := RankedClasses(rows);
    assert forall i, j :: 0 <= i < 10 <= j < |ranked| ==> MoreViolations()(ranked[i], ranked[j]);
    Take(ranked, 10)
  }

  function JoinedDate(j: Joined): string { j.b.date }

  /** `ORDER BY b.date DESC` over the violation rows. */
  function NewestViolations(rows: seq<Joined>): (r: seq<Joined>)
    ensures multiset(r) == multiset(rows)
    ensures Sorted(r, DescBy(JoinedDate))
  {
    DescByPreorder(JoinedDate);
    SortSorted(rows, DescBy(JoinedDate));
    Sort(rows, DescBy(JoinedDate))
  }

  /** `LIMIT 5`: five violations, none older than a violation left out. */
  function RecentViolations(rows: seq<Joined>): (r: seq<Joined>)
    ensures |r| == if |rows| < 5 then |rows| else 5
    ensures forall x :: x in r ==> x in rows
    ensures forall i, j :: 0 <= i < |r| && 5 <= j < |rows| ==> TextLe(NewestViolations(rows)[j].b.date, r[i].b.date)
  {
    var ordered := NewestViolations(rows);
    forall x | x in ordered ensures x in rows {
      SortMembers(rows, DescBy(JoinedDate), x);
    }
    forall i, j | 0 <= i < 5 <= j < |ordered| ensures TextLe(ordered[j].b.date, ordered[i].b.date) {
      assert DescBy(JoinedDate)(ordered[i], ordered[j]);
      assert DescBy(JoinedDate)(ordered[i], ordered[j]) == TextLe(JoinedDate(ordered[j]), JoinedDate(ordered[i]));
    }
    Take(ordered, 5)
  }

  // ---------------------------------------------------------------------------
  // The route

  datatype Dashboard = Dashboard(
    totalStudents: nat, totalBehaviors: nat, behaviorStats: seq<CategoryStat>,
    gradeDistribution: map<string, nat>, classRanking: seq<ClassRow>,
    recentViolations: seq<Joined>, typeDistribution: seq<Coloured>)

  /** GET /api/statistics. The filter is assembled once and every filtered query reads
      the same joined rows through it. */
  method GetDashboard(db: Db, q: DashQuery, show: Option<real> -> string) returns (d: Dashboard)
    ensures d.totalStudents == |Where(db.students, InGrade(q.grade))|
    ensures d.totalBehaviors == |Where(JoinAll(db.behaviors, db.students, db.behaviorTypes), InFilter(q))|
    ensures d.gradeDistribution == GradeDistribution(db.students)
    ensures d.behaviorStats == CategoryStats(Where(JoinAll(db.behaviors, db.students, db.behaviorTypes), Typed(q)), d.totalStudents)
    ensures d.typeDistribution == ColourAll(TypeDistribution(Where(JoinAll(db.behaviors, db.students, db.behaviorTypes), Typed(q)), db.behaviors, db.behaviorTypes), show)
    ensures d.classRanking == ClassRanking(Where(JoinAll(db.behaviors, db.students, db.behaviorTypes), Violations(q)))
    ensures d.recentViolations == RecentViolations(Where(JoinAll(db.behaviors, db.students, db.behaviorTypes), Violations(q)))
  {
    var conds, params := BuildDashboardFilter(q);
    var joined := JoinAll(db.behaviors, db.students, db.behaviorTypes);
    var filtered := Where(joined, (j: Joined) => Satisfies(FactOf(j), conds, params));
    WhereSame(joined, (j: Joined) => Satisfies(FactOf(j), conds, params), InFilter(q));
    var typed := Where(joined, (j: Joined) => j.category.Some? && Satisfies(FactOf(j), conds, params));
    WhereSame(joined, (j: Joined) => j.category.Some? && Satisfies(FactOf(j), conds, params), Typed(q));
    var violations := Where(joined, (j: Joined) => j.category == Some(Violation) && Satisfies(FactOf(j), conds, params));
    WhereSame(joined, (j: Joined) => j.category == Some(Violation) && Satisfies(FactOf(j), conds, params), Violations(q));
    var studentCount := |Where(db.students, InGrade(q.grade))|;
    d := Dashboard(studentCount, |filtered|, CategoryStats(typed, studentCount),
                   GradeDistribution(db.students), ClassRanking(violations),
                   RecentViolations(violations), ColourAll(TypeDistribution(typed, db.behaviors, db.behaviorTypes), show));
  }
}
