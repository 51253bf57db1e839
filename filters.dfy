/** The WHERE clauses the route handlers assemble at run time: a sequence of
    placeholders (` AND b.date >= ?` and the like) and, kept alongside, the sequence of
    values bound to them. A row passes when every placeholder holds of its value. */
module Filters {
  import opened Common
  import opened Sorting

  /** The condition shapes the handlers append. */
  datatype Placeholder = StudentIdEq | BehaviorTypeEq | CategoryEq | DateFrom | DateTo | GradeEq

  /** A bound parameter. */
  datatype Value = IntValue(i: int) | TextValue(s: string)

  /** The columns of one joined row that the conditions can read; a column the query
      does not join is None. */
  datatype Fact = Fact(
    studentId: int, behaviorType: string, category: Option<string>, date: string,
    grade: Option<string>)

  predicate Holds(p: Placeholder, v: Value, f: Fact)
  {
    match p
    case StudentIdEq => v == IntValue(f.studentId)
    case BehaviorTypeEq => v == TextValue(f.behaviorType)
    case CategoryEq => v.TextValue? && f.category == Some(v.s)
    case DateFrom => v.TextValue? && TextLe(v.s, f.date)
    case DateTo => v.TextValue? && TextLe(f.date, v.s)
    case GradeEq => v.TextValue? && f.grade == Some(v.s)
  }

  /** `WHERE 1=1 AND c1 AND c2 ...` with the i-th value bound to the i-th placeholder. */
  predicate Satisfies(f: Fact, conds: seq<Placeholder>, params: seq<Value>)
    requires |conds| == |params|
  {
    forall i :: 0 <= i < |conds| ==> Holds(conds[i], params[i], f)
  }

  /** Appending one condition with its value keeps the two sequences aligned and adds
      that condition as one more conjunct. */
  lemma SatisfiesSnoc(f: Fact, conds: seq<Placeholder>, params: seq<Value>, p: Placeholder, v: Value)
    requires |conds| == |params|
    ensures Satisfies(f, conds + [p], params + [v]) <==> Satisfies(f, conds, params) && Holds(p, v, f)
  {
    if Satisfies(f, conds, params) && Holds(p, v, f) {
      forall i | 0 <= i < |conds| + 1 ensures Holds((conds + [p])[i], (params + [v])[i], f) {
        if i < |conds| { assert (conds + [p])[i] == conds[i] && (params + [v])[i] == params[i]; }
      }
    }
    if Satisfies(f, conds + [p], params + [v]) {
      forall i | 0 <= i < |conds| ensures Holds(conds[i], params[i], f) {
        assert (conds + [p])[i] == conds[i] && (params + [v])[i] == params[i];
      }
      assert (conds + [p])[|conds|] == p;
    }
  }

  /** One `if (x) { sql += ' AND ...'; params.push(v) }` block of a handler: appends the
      condition and its value when `present`, and the filter gains exactly that conjunct. */
  method AddCondition(conds: seq<Placeholder>, params: seq<Value>, present: bool, p: Placeholder, v: Value)
    returns (conds': seq<Placeholder>, params': seq<Value>)
    requires |conds| == |params|
    ensures |conds'| == |params'|
    ensures conds' == conds + (if present then [p] else [])
    ensures forall f :: Satisfies(f, conds', params') <==> Satisfies(f, conds, params) && (present ==> Holds(p, v, f))
  {
    if present {
      forall f ensures Satisfies(f, conds + [p], params + [v]) <==> Satisfies(f, conds, params) && Holds(p, v, f) {
        SatisfiesSnoc(f, conds, params, p, v);
      }
      conds', params' := conds + [p], params + [v];
    } else {
      conds', params' := conds, params;
    }
  }

  /** The value bound to an optional text condition (never read when it is absent). */
  function Text(s: Option<string>): Value
  {
    TextValue(if s.Some? then s.value else "")
  }

  /** `ORDER BY key` on a text column. */
  function AscBy<T>(key: T -> string): (T, T) -> bool
  {
    (a: T, b: T) => TextLe(key(a), key(b))
  }

  /** `ORDER BY key DESC` on a text column. */
  function DescBy<T>(key: T -> string): (T, T) -> bool
  {
    (a: T, b: T) => TextLe(key(b), key(a))
  }

  lemma AscByPreorder<T(!new)>(key: T -> string)
    ensures TotalPreorder(AscBy(key))
  {
    forall a: T, b: T ensures AscBy(key)(a, b) || AscBy(key)(b, a) {
      TextLeTotal(key(a), key(b));
    }
    forall a: T, b: T, c: T | AscBy(key)(a, b) && AscBy(key)(b, c) ensures AscBy(key)(a, c) {
      TextLeTrans(key(a), key(b), key(c));
    }
  }

  lemma DescByPreorder<T(!new)>(key: T -> string)
    ensures TotalPreorder(DescBy(key))
  {
    forall a: T, b: T ensures DescBy(key)(a, b) || DescBy(key)(b, a) {
      TextLeTotal(key(a), key(b));
    }
    forall a: T, b: T, c: T | DescBy(key)(a, b) && DescBy(key)(b, c) ensures DescBy(key)(a, c) {
      TextLeTrans(key(c), key(b), key(a));
    }
  }

  /** Timestamps are stored as 'YYYY-MM-DD HH:MM:SS' text, and a date-only upper bound is
      compared as text: a record made at any time on the bound day is longer than the
      bound and sorts after it, so it falls outside the range. */
  lemma {:induction false} DateOnlyUpperBound(day: string, time: string)
    requires |time| > 0
    ensures !TextLe(day + time, day)
    decreases |day|
  {
    if day != [] {
      assert (day + time)[1..] == day[1..] + time;
      DateOnlyUpperBound(day[1..], time);
    }
  }
}
