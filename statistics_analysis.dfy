/** GET /api/statistics/analysis and GET /api/statistics/student/:id: the share of
    students with a violation, per grade and overall, and one student's behaviors
    counted by type. */
module Analysis {
  import opened Common
  import opened Tables
  import opened Sorting
  import opened Schema
  import opened Grouping
  import opened Statistics

  /** `b.date >= ?` and `b.date <= ?`, each when given. */
  predicate InDates(date: string, start: Option<string>, end: Option<string>)
  {
    && (Truthy(start) ==> TextLe(start.value, date))
    && (Truthy(end) ==> TextLe(date, end.value))
  }

  /** `COUNT(DISTINCT CASE WHEN bt.category = '违纪' THEN b.student_id END)` counts a
      student when one of their behaviors inside the dates (the dates sit in the ON
      clause of `LEFT JOIN behaviors`) names a type of the violation category. */
  predicate IsViolator(s: Student, bs: seq<Behavior>, types: seq<BehaviorType>, q: DashQuery)
  {
    exists b :: b in bs && b.studentId == s.id && InDates(b.date, q.start, q.end)
                && CategoryOf(types, b.behaviorType) == Some(Violation)
  }

  function Violators(bs: seq<Behavior>, types: seq<BehaviorType>, q: DashQuery): Student -> bool
  {
    (s: Student) => IsViolator(s, bs, types, q)
  }

  /** `COALESCE(v * 100.0 / NULLIF(t, 0), 0)`: a percentage, and 0 when there is no student. */
  function Rate(v: nat, t: nat): (r: real)
    ensures t == 0 ==> r == 0.0
    ensures v <= t ==> 0.0 <= r <= 100.0
    ensures 0 < t && v <= t ==> (r == 100.0 <==> v == t) && (r == 0.0 <==> v == 0)
  {
    if t == 0 then 0.0
    else
      var x := (v as real) * 100.0 / (t as real);
      assert x * (t as real) == (v as real) * 100.0;
      x
  }

  /** `ORDER BY CASE grade WHEN '高一' THEN 1 WHEN '高二' THEN 2 WHEN '高三' THEN 3 ELSE 4 END`. */
  function GradeRank(g: string): (r: nat)
    ensures 1 <= r <= 4
    ensures r == 4 <==> g != "高一" && g != "高二" && g != "高三"
  {
    if g == "高一" then 1 else if g == "高二" then 2 else if g == "高三" then 3 else 4
  }

  /** One row of `gradeViolationRates`. */
  datatype GradeRate = GradeRate(grade: string, totalStudents: nat, violationStudents: nat, rate: real)

  /** The students the analysis looks at: those of the requested grade, if any. */
  function Scope(students: seq<Student>, q: DashQuery): seq<Student>
  {
    Where(students, InGrade(q.grade))
  }

  function RateFor(scope: seq<Student>, bs: seq<Behavior>, types: seq<BehaviorType>, q: DashQuery, g: string): GradeRate
  {
    var inG := Where(scope, KeyIs(GradeOf, g));
    var v := |Where(inG, Violators(bs, types, q))|;
    GradeRate(g, |inG|, v, Rate(v, |inG|))
  }

  /** `GROUP BY s.grade` over the students in scope. */
  function GradeRows(students: seq<Student>, bs: seq<Behavior>, types: seq<BehaviorType>, q: DashQuery): (r: seq<GradeRate>)
    ensures |r| == |GroupCount(Keys(Scope(students, q), GradeOf))|
    ensures forall i :: 0 <= i < |r| ==>
      r[i] == RateFor(Scope(students, q), bs, types, q, GroupCount(Keys(Scope(students, q), GradeOf))[i].0)
  {
    var scope := Scope(students, q);
    var groups := GroupCount(Keys(scope, GradeOf));
    seq(|groups|, i requires 0 <= i < |groups| => RateFor(scope, bs, types, q, groups[i].0))
  }

  function ByGradeRank(): (GradeRate, GradeRate) -> bool
  {
    (a: GradeRate, b: GradeRate) => GradeRank(a.grade) <= GradeRank(b.grade)
  }

  /** The per-grade rates, 高一, 高二, 高三 first and every other grade after them. */
  function GradeViolationRates(students: seq<Student>, bs: seq<Behavior>, types: seq<BehaviorType>, q: DashQuery): (r: seq<GradeRate>)
    ensures Sorted(r, ByGradeRank())
    ensures multiset(r) == multiset(GradeRows(students, bs, types, q))
  {
    SortSorted(GradeRows(students, bs, types, q), ByGradeRank());
    Sort(GradeRows(students, bs, types, q), ByGradeRank())
  }

  /** Each grade row counts the students of its grade in scope, at least one, and among
      them the violators; its rate is their share in percent. With a grade requested,
      that is the only grade listed. */
  lemma GradeRateBounds(students: seq<Student>, bs: seq<Behavior>, types: seq<BehaviorType>, q: DashQuery, x: GradeRate)
    requires x in GradeViolationRates(students, bs, types, q)
    ensures x.totalStudents == |Where(Scope(students, q), KeyIs(GradeOf, x.grade))| > 0
    ensures x.violationStudents <= x.totalStudents
    ensures x.rate == Rate(x.violationStudents, x.totalStudents) && 0.0 <= x.rate <= 100.0
    ensures Truthy(q.grade) ==> x.grade == q.grade.value
  {
    var scope := Scope(students, q);
    var rows := GradeRows(students, bs, types, q);
    SortMembers(rows, ByGradeRank(), x);
    var i :| 0 <= i < |rows| && rows[i] == x;
    var groups := GroupCount(Keys(scope, GradeOf));
    CountMatches(scope, GradeOf, groups[i].0);
    GroupOfRow(scope, GradeOf, x.grade);
    var s :| s in scope && s.grade == x.grade;
  }

  /** A grade is listed iff some student in scope has it. */
  lemma GradeRatesCover(students: seq<Student>, bs: seq<Behavior>, types: seq<BehaviorType>, q: DashQuery, g: string)
    ensures (exists x :: x in GradeViolationRates(students, bs, types, q) && x.grade == g)
            <==> exists s :: s in Scope(students, q) && s.grade == g
  {
    var scope := Scope(students, q);
    GroupOfRow(scope, GradeOf, g);
    GradeRowsKeys(students, bs, types, q, g);
    SameGrades(GradeViolationRates(students, bs, types, q), GradeRows(students, bs, types, q), g);
  }

  /** There is a grade row for g iff g is a grouping key. */
  lemma GradeRowsKeys(students: seq<Student>, bs: seq<Behavior>, types: seq<BehaviorType>, q: DashQuery, g: string)
    ensures (exists x :: x in GradeRows(students, bs, types, q) && x.grade == g)
            <==> HasKey(GroupCount(Keys(Scope(students, q), GradeOf)), g)
  {
    var rows := GradeRows(students, bs, types, q);
    var groups := GroupCount(Keys(Scope(students, q), GradeOf));
    forall i | 0 <= i < |rows| ensures rows[i].grade == groups[i].0 {
    }
    RowPerKey(rows, groups, g);
  }

  /** Rows made one per group, each carrying its group's key. */
  lemma RowPerKey(rows: seq<GradeRate>, groups: seq<(string, nat)>, g: string)
    requires |rows| == |groups|
    requires forall i :: 0 <= i < |rows| ==> rows[i].grade == groups[i].0
    ensures (exists x :: x in rows && x.grade == g) <==> HasKey(groups, g)
  {
    if exists x :: x in rows && x.grade == g {
      var x :| x in rows && x.grade == g;
      var i :| 0 <= i < |rows| && rows[i] == x;
      assert groups[i].0 == g;
    }
    if HasKey(groups, g) {
      var i :| 0 <= i < |groups| && groups[i].0 == g;
      assert rows[i] in rows;
    }
  }

  /** Reordering rows keeps the grades they list. */
  lemma SameGrades(a: seq<GradeRate>, b: seq<GradeRate>, g: string)
    requires multiset(a) == multiset(b)
    ensures (exists x :: x in a && x.grade == g) <==> (exists x :: x in b && x.grade == g)
  {
    forall x | x in a ensures x in b {
      assert x in multiset(a);
    }
    forall x | x in b ensures x in a {
      assert x in multiset(b);
    }
  }

  /** The sum of the students column. */
  function SumStudents(rows: seq<GradeRate>): nat
    decreases |rows|
  {
    if rows == [] then 0 else SumStudents(rows[..|rows| - 1]) + rows[|rows| - 1].totalStudents
  }

  lemma {:induction false} SumMatchesTotal(rows: seq<GradeRate>, groups: seq<(string, nat)>)
    requires |rows| == |groups| && forall i :: 0 <= i < |rows| ==> rows[i].totalStudents == groups[i].1
    ensures SumStudents(rows) == Total(groups)
    decreases |rows|
  {
    if rows != [] {
      SumMatchesTotal(rows[..|rows| - 1], groups[..|groups| - 1]);
    }
  }

  /** The grade rows split the students in scope: their totals add up to the overall total. */
  lemma GradeTotalsAddUp(students: seq<Student>, bs: seq<Behavior>, types: seq<BehaviorType>, q: DashQuery)
    ensures SumStudents(GradeRows(students, bs, types, q)) == |Scope(students, q)|
  {
    var scope := Scope(students, q);
    var groups := GroupCount(Keys(scope, GradeOf));
    var rows := GradeRows(students, bs, types, q);
    forall i | 0 <= i < |rows| ensures rows[i].totalStudents == groups[i].1 {
      CountMatches(scope, GradeOf, groups[i].0);
    }
    SumMatchesTotal(rows, groups);
    GroupCountTotal(Keys(scope, GradeOf));
  }

  /** The overall figures. */
  datatype Totals = Totals(totalStudents: nat, violationStudents: nat, rate: real)

  function TotalStats(students: seq<Student>, bs: seq<Behavior>, types: seq<BehaviorType>, q: DashQuery): (t: Totals)
    ensures t.totalStudents == |Scope(students, q)|
    ensures t.violationStudents <= t.totalStudents
    ensures 0.0 <= t.rate <= 100.0
    ensures forall s :: s in Scope(students, q) && IsViolator(s, bs, types, q) ==> t.violationStudents > 0
  {
    var scope := Scope(students, q);
    var v := Where(scope, Violators(bs, types, q));
    assert forall s :: s in scope && IsViolator(s, bs, types, q) ==> s in v;
    Totals(|scope|, |v|, Rate(|v|, |scope|))
  }

  // ---------------------------------------------------------------------------
  // One student's behaviors by type

  /** A row of `students s LEFT JOIN behaviors b ON s.id = b.student_id`: a student without
      behaviors still gives one row, whose behavior columns are NULL. */
  datatype StudentRow = NoBehavior | WithBehavior(b: Behavior)

  function OfStudent(id: int): Behavior -> bool
  {
    (b: Behavior) => b.studentId == id
  }

  function Wrap(bs: seq<Behavior>): (r: seq<StudentRow>)
    ensures |r| == |bs| && forall i :: 0 <= i < |bs| ==> r[i] == WithBehavior(bs[i])
  {
    seq(|bs|, i requires 0 <= i < |bs| => WithBehavior(bs[i]))
  }

  /** The date conditions sit in the WHERE clause: a NULL date passes neither. */
  function RowInDates(start: Option<string>, end: Option<string>): StudentRow -> bool
  {
    (r: StudentRow) => match r
      case NoBehavior => !Truthy(start) && !Truthy(end)
      case WithBehavior(b) => InDates(b.date, start, end)
  }

  function StudentRows(students: seq<Student>, bs: seq<Behavior>, id: int, start: Option<string>, end: Option<string>): seq<StudentRow>
  {
    if !StudentExists(students, id) then []
    else
      var own := Where(bs, OfStudent(id));
      Where(if own == [] then [NoBehavior] else Wrap(own), RowInDates(start, end))
  }

  /** The grouping key `bt.name, bt.category`: NULL for a row without a behavior or whose
      type no longer exists. */
  function TypeOfRow(types: seq<BehaviorType>): StudentRow -> Option<(string, string)>
  {
    (r: StudentRow) => match r
      case NoBehavior => None
      case WithBehavior(b) =>
        match CategoryOf(types, b.behaviorType)
        case None => None
        case Some(c) => Some((b.behaviorType, c))
  }

  /** `COUNT(b.id)` counts the rows of the group that carry a behavior. */
  function Counted(types: seq<BehaviorType>, k: Option<(string, string)>): StudentRow -> bool
  {
    (r: StudentRow) => r.WithBehavior? && TypeOfRow(types)(r) == k
  }

  datatype TypeCount = TypeCount(behaviorType: Option<(string, string)>, count: nat)

  /** One entry per `GROUP BY bt.name, bt.category` group, in the order the groups first
      appear. */
  function TypeCounts(rows: seq<StudentRow>, types: seq<BehaviorType>): (r: seq<TypeCount>)
    ensures |r| == |GroupCount(Keys(rows, TypeOfRow(types)))|
    ensures forall i :: 0 <= i < |r| ==>
      r[i] == TypeCount(GroupCount(Keys(rows, TypeOfRow(types)))[i].0,
                        |Where(rows, Counted(types, GroupCount(Keys(rows, TypeOfRow(types)))[i].0))|)
  {
    var groups := GroupCount(Keys(rows, TypeOfRow(types)));
    seq(|groups|, i requires 0 <= i < |groups| => TypeCount(groups[i].0, |Where(rows, Counted(types, groups[i].0))|))
  }

  /** `ORDER BY bt.category`: the NULL category sorts first, then categories in text
      order. */
  function CategoryFirst(): (TypeCount, TypeCount) -> bool
  {
    (a: TypeCount, b: TypeCount) =>
      a.behaviorType.None? || (b.behaviorType.Some? && TextLe(a.behaviorType.value.1, b.behaviorType.value.1))
  }

  function MoreCount(): (TypeCount, TypeCount) -> bool
  {
    (a: TypeCount, b: TypeCount) => a.count >= b.count
  }

  /** `ORDER BY bt.category, count DESC`. */
  function CountOrder(): (TypeCount, TypeCount) -> bool
  {
    Lex(CategoryFirst(), MoreCount())
  }

  lemma CategoryFirstPreorder()
    ensures TotalPreorder(CategoryFirst())
  {
    var le := CategoryFirst();
    forall a: TypeCount, b: TypeCount ensures le(a, b) || le(b, a) {
      if a.behaviorType.Some? && b.behaviorType.Some? {
        TextLeTotal(a.behaviorType.value.1, b.behaviorType.value.1);
      }
    }
    forall a: TypeCount, b: TypeCount, c: TypeCount | le(a, b) && le(b, c) ensures le(a, c) {
      if a.behaviorType.Some? {
        TextLeTrans(a.behaviorType.value.1, b.behaviorType.value.1, c.behaviorType.value.1);
      }
    }
  }

  /** The reply: None is 404 '未找到该学生', sent when the query returns no row; otherwise
      the groups' counts, ordered by category with the largest count first. */
  function StudentStats(students: seq<Student>, bs: seq<Behavior>, types: seq<BehaviorType>, id: int,
                        start: Option<string>, end: Option<string>): (r: Option<seq<TypeCount>>)
    ensures r.None? <==> StudentRows(students, bs, id, start, end) == []
    ensures r.Some? ==> Sorted(r.value, CountOrder())
    ensures r.Some? ==> multiset(r.value) == multiset(TypeCounts(StudentRows(students, bs, id, start, end), types))
  {
    var rows := StudentRows(students, bs, id, start, end);
    if rows == [] then None
    else
      CategoryFirstPreorder();
      LexPreorder(CategoryFirst(), MoreCount());
      SortSorted(TypeCounts(rows, types), CountOrder());
      Some(Sort(TypeCounts(rows, types), CountOrder()))
  }

  function InDatesOf(start: Option<string>, end: Option<string>): Behavior -> bool
  {
    (b: Behavior) => InDates(b.date, start, end)
  }

  /** The behaviors whose type key is k. */
  function OfTypeKey(types: seq<BehaviorType>, k: Option<(string, string)>): Behavior -> bool
  {
    (b: Behavior) => TypeOfRow(types)(WithBehavior(b)) == k
  }

  /** Each entry counts exactly the student's behaviors inside the dates whose type key
      is the entry's: a behavior whose type is gone counts in the NULL entry. */
  lemma StudentTypeCount(students: seq<Student>, bs: seq<Behavior>, types: seq<BehaviorType>, id: int,
                         start: Option<string>, end: Option<string>, x: TypeCount)
    requires StudentStats(students, bs, types, id, start, end).Some?
    requires x in StudentStats(students, bs, types, id, start, end).value
    ensures x.count == |Where(Where(Where(bs, OfStudent(id)), InDatesOf(start, end)), OfTypeKey(types, x.behaviorType))|
  {
    var rows := StudentRows(students, bs, id, start, end);
    var tc := TypeCounts(rows, types);
    assert x in multiset(StudentStats(students, bs, types, id, start, end).value);
    assert x in multiset(tc);
    var i :| 0 <= i < |tc| && tc[i] == x;
    assert x.count == |Where(rows, Counted(types, x.behaviorType))|;
    var own := Where(bs, OfStudent(id));
    if own == [] {
      LoneRowUncounted(start, end, types, x.behaviorType);
    } else {
      var inDates := Where(own, InDatesOf(start, end));
      WrapWhere(own, InDatesOf(start, end), RowInDates(start, end));
      WrapWhere(inDates, OfTypeKey(types, x.behaviorType), Counted(types, x.behaviorType));
    }
  }

  /** The NULL row of a student without behaviors is counted by no entry. */
  lemma LoneRowUncounted(start: Option<string>, end: Option<string>, types: seq<BehaviorType>, k: Option<(string, string)>)
    ensures Where(Where([NoBehavior], RowInDates(start, end)), Counted(types, k)) == []
  {
    var rows := Where([NoBehavior], RowInDates(start, end));
    forall r | r in rows ensures !Counted(types, k)(r) {
      assert r in [NoBehavior];
    }
    WhereNone(rows, Counted(types, k));
  }

  /** A condition that reads only the behavior of a row filters the wrapped rows as it
      filters the behaviors. */
  lemma {:induction false} WrapWhere(own: seq<Behavior>, p: Behavior -> bool, q: StudentRow -> bool)
    requires forall b :: q(WithBehavior(b)) == p(b)
    ensures Where(Wrap(own), q) == Wrap(Where(own, p))
    decreases |own|
  {
    if own != [] {
      var x, rest := own[0], own[1..];
      WrapWhere(rest, p, q);
      assert own == [x] + rest;
      WrapCons(x, rest);
      WhereCons(WithBehavior(x), Wrap(rest), q);
      WhereCons(x, rest, p);
      if p(x) {
        WrapCons(x, Where(rest, p));
      }
    }
  }

  lemma WrapCons(x: Behavior, rest: seq<Behavior>)
    ensures Wrap([x] + rest) == [WithBehavior(x)] + Wrap(rest)
  {
    var w := Wrap([x] + rest);
    assert forall i :: 1 <= i < |w| ==> w[i] == WithBehavior(rest[i - 1]);
  }

  /** Some behavior row survives the date filter iff one of the behaviors is in the dates. */
  lemma WrappedRowsEmpty(own: seq<Behavior>, start: Option<string>, end: Option<string>)
    ensures Where(Wrap(own), RowInDates(start, end)) == [] <==> forall b :: b in own ==> !InDates(b.date, start, end)
  {
    var rows := Where(Wrap(own), RowInDates(start, end));
    if exists b :: b in own && InDates(b.date, start, end) {
      var b :| b in own && InDates(b.date, start, end);
      var k :| 0 <= k < |own| && own[k] == b;
      assert Wrap(own)[k] == WithBehavior(b);
      assert WithBehavior(b) in rows;
    }
    if rows != [] {
      assert rows[0] in Wrap(own);
      var k :| 0 <= k < |own| && Wrap(own)[k] == rows[0];
      assert own[k] in own && InDates(own[k].date, start, end);
    }
  }

  /** 404 comes back for a student that does not exist, and also for an existing one
      when a date is given and none of their behaviors lies inside the dates. */
  lemma StudentNotFound(students: seq<Student>, bs: seq<Behavior>, types: seq<BehaviorType>, id: int,
                        start: Option<string>, end: Option<string>)
    ensures StudentStats(students, bs, types, id, start, end).None?
            <==> !StudentExists(students, id)
                 || ((Truthy(start) || Truthy(end)) && forall b :: b in bs && b.studentId == id ==> !InDates(b.date, start, end))
  {
    if StudentExists(students, id) {
      var own := Where(bs, OfStudent(id));
      OwnOutsideDates(bs, id, start, end);
      if own != [] {
        WrappedRowsEmpty(own, start, end);
        assert own[0] in own;
      } else {
        LoneRowInDates(start, end);
      }
    }
  }

  /** The student's own behaviors all miss the dates iff every behavior of theirs does. */
  lemma OwnOutsideDates(bs: seq<Behavior>, id: int, start: Option<string>, end: Option<string>)
    ensures (forall b :: b in Where(bs, OfStudent(id)) ==> !InDates(b.date, start, end))
            <==> forall b :: b in bs && b.studentId == id ==> !InDates(b.date, start, end)
  {
    assert forall b :: b in Where(bs, OfStudent(id)) <==> b in bs && b.studentId == id;
  }

  /** The single NULL row of a student without behaviors survives only without dates. */
  lemma LoneRowInDates(start: Option<string>, end: Option<string>)
    ensures Where([NoBehavior], RowInDates(start, end)) == [] <==> Truthy(start) || Truthy(end)
  {
    WhereCons(NoBehavior, [], RowInDates(start, end));
    assert [NoBehavior] + [] == [NoBehavior];
  }

  /** A student without any behavior, asked about without dates, gets one entry: no type,
      count 0. */
  lemma NoBehaviorsOneEmptyGroup(students: seq<Student>, bs: seq<Behavior>, types: seq<BehaviorType>, id: int)
    requires StudentExists(students, id)
    requires forall b :: b in bs ==> b.studentId != id
    ensures StudentStats(students, bs, types, id, None, None) == Some([TypeCount(None, 0)])
  {
    WhereNone(bs, OfStudent(id));
    var rows := StudentRows(students, bs, id, None, None);
    assert rows == [NoBehavior];
    assert Keys(rows, TypeOfRow(types)) == [None];
    GroupOne<Option<(string, string)>>(None);
    assert Where(rows, Counted(types, None)) == [];
    var groups := GroupCount(Keys(rows, TypeOfRow(types)));
    assert groups == [(None, 1)];
    var counts := seq(|groups|, i requires 0 <= i < |groups| => TypeCount(groups[i].0, |Where(rows, Counted(types, groups[i].0))|));
    assert counts[0] == TypeCount(None, 0);
    assert counts == [TypeCount(None, 0)];
  }
}
