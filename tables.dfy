/** Tables as sequences of rows in insertion order, with the handful of relational
    operations the route handlers use: lookup by primary key, deletion by a predicate,
    counting and projection. */
module Tables {
  import opened Common

  /** No two rows share a primary key. */
  predicate UniqueKeys<T, K(==)>(rows: seq<T>, key: T -> K)
  {
    forall i, j :: 0 <= i < j < |rows| ==> key(rows[i]) != key(rows[j])
  }

  /** Every key is below the next AUTOINCREMENT value. */
  predicate KeysBelow<T>(rows: seq<T>, key: T -> int, next: int)
  {
    forall i :: 0 <= i < |rows| ==> key(rows[i]) < next
  }

  /** `SELECT * FROM t WHERE id = ?`: the position of the first row with that key, if any. */
  function Find<T, K(==)>(rows: seq<T>, key: T -> K, id: K): (r: Option<nat>)
    ensures r.None? <==> forall i :: 0 <= i < |rows| ==> key(rows[i]) != id
    ensures r.Some? ==> r.value < |rows| && key(rows[r.value]) == id
    ensures r.Some? && UniqueKeys(rows, key) ==>
      forall i :: 0 <= i < |rows| && i != r.value ==> key(rows[i]) != id
    decreases |rows|
  {
    if rows == [] then None
    else if key(rows[0]) == id then Some(0)
    else
      var r := Find(rows[1..], key, id);
      if r.None? then None else Some(r.value + 1)
  }

  /** The rows that satisfy p, in table order. */
  function Where<T(!new)>(rows: seq<T>, p: T -> bool): (r: seq<T>)
    ensures |r| <= |rows|
    ensures forall x :: x in r <==> x in rows && p(x)
    ensures multiset(r) <= multiset(rows)
  {
    if rows == [] then []
    else
      assert rows == [rows[0]] + rows[1..];
      if p(rows[0]) then [rows[0]] + Where(rows[1..], p) else Where(rows[1..], p)
  }

  /** `COUNT(*)` over the rows that satisfy p. */
  function Count<T(!new)>(rows: seq<T>, p: T -> bool): (n: nat)
    ensures n <= |rows|
  {
    |Where(rows, p)|
  }

  /** Deleting rows keeps a primary key or a UNIQUE column unique. */
  lemma {:induction false} WherePreservesUnique<T(!new), K>(rows: seq<T>, key: T -> K, p: T -> bool)
    requires UniqueKeys(rows, key)
    ensures UniqueKeys(Where(rows, p), key)
    decreases |rows|
  {
    if rows != [] {
      UniqueTail(rows, key);
      WherePreservesUnique(rows[1..], key, p);
      var w := Where(rows[1..], p);
      if p(rows[0]) {
        forall j | 0 <= j < |w| ensures key(rows[0]) != key(w[j]) {
          assert w[j] in rows[1..];
        }
        UniqueCons(rows[0], w, key);
      }
    }
  }

  /** The rows after the first keep their keys unique, and none repeats the first key. */
  lemma UniqueTail<T, K>(rows: seq<T>, key: T -> K)
    requires UniqueKeys(rows, key) && rows != []
    ensures UniqueKeys(rows[1..], key)
    ensures forall y :: y in rows[1..] ==> key(y) != key(rows[0])
  {
    var t := rows[1..];
    forall i, j | 0 <= i < j < |t| ensures key(t[i]) != key(t[j]) {
      assert t[i] == rows[i + 1] && t[j] == rows[j + 1];
    }
    forall y | y in t ensures key(y) != key(rows[0]) {
      var k :| 0 <= k < |t| && t[k] == y;
      assert rows[k + 1] == y;
    }
  }

  /** A row whose key differs from every key of a unique table can go in front. */
  lemma UniqueCons<T, K>(x: T, w: seq<T>, key: T -> K)
    requires UniqueKeys(w, key) && forall j :: 0 <= j < |w| ==> key(x) != key(w[j])
    ensures UniqueKeys([x] + w, key)
  {
    var t := [x] + w;
    forall i, j | 0 <= i < j < |t| ensures key(t[i]) != key(t[j]) {
      assert t[j] == w[j - 1];
      if i > 0 {
        assert t[i] == w[i - 1];
      }
    }
  }

  /** The filter of `DELETE FROM t WHERE key = ?`: the rows to keep. */
  function KeyIsNot<T, K(==)>(key: T -> K, id: K): T -> bool
  {
    x => key(x) != id
  }

  lemma {:induction false} WhereAll<T(!new)>(rows: seq<T>, p: T -> bool)
    requires forall x :: x in rows ==> p(x)
    ensures Where(rows, p) == rows
    decreases |rows|
  {
    if rows != [] {
      WhereAll(rows[1..], p);
    }
  }

  /** A filter no row passes keeps nothing. */
  lemma {:induction false} WhereNone<T(!new)>(rows: seq<T>, p: T -> bool)
    requires forall x :: x in rows ==> !p(x)
    ensures Where(rows, p) == []
    decreases |rows|
  {
    if rows != [] {
      WhereNone(rows[1..], p);
    }
  }

  /** Deleting by primary key from a table with unique keys removes exactly one row
      when the key is present and none otherwise. */
  lemma {:induction false} DeleteByKeyCount<T(!new), K>(rows: seq<T>, key: T -> K, id: K)
    requires UniqueKeys(rows, key)
    ensures |Where(rows, KeyIsNot(key, id))| == if Find(rows, key, id).Some? then |rows| - 1 else |rows|
    decreases |rows|
  {
    if rows != [] {
      assert UniqueKeys(rows[1..], key) by {
        forall i, j | 0 <= i < j < |rows[1..]| ensures key(rows[1..][i]) != key(rows[1..][j]) {
          assert rows[1..][i] == rows[i + 1] && rows[1..][j] == rows[j + 1];
        }
      }
      DeleteByKeyCount(rows[1..], key, id);
      if key(rows[0]) == id {
        assert forall i :: 0 <= i < |rows[1..]| ==> key(rows[1..][i]) != id by {
          forall i | 0 <= i < |rows[1..]| ensures key(rows[1..][i]) != id {
            assert rows[1..][i] == rows[i + 1];
          }
        }
      }
    }
  }

  /** Deleting rows keeps every key below the AUTOINCREMENT counter. */
  lemma WhereKeepsBelow<T(!new)>(rows: seq<T>, key: T -> int, next: int, p: T -> bool)
    requires KeysBelow(rows, key, next)
    ensures KeysBelow(Where(rows, p), key, next)
  {
    var w := Where(rows, p);
    forall i | 0 <= i < |w| ensures key(w[i]) < next {
      assert w[i] in rows;
    }
  }

  /** A table splits into the rows a predicate selects and the rows it does not. */
  lemma {:induction false} WhereSplit<T(!new)>(rows: seq<T>, p: T -> bool, q: T -> bool)
    requires forall x :: q(x) == !p(x)
    ensures |Where(rows, p)| + |Where(rows, q)| == |rows|
    decreases |rows|
  {
    if rows != [] {
      WhereSplit(rows[1..], p, q);
    }
  }

  /** Appending a row with a fresh key keeps the keys unique and below the new counter. */
  lemma AppendFreshKey<T>(rows: seq<T>, key: T -> int, next: int, x: T)
    requires UniqueKeys(rows, key) && KeysBelow(rows, key, next) && key(x) == next
    ensures UniqueKeys(rows + [x], key) && KeysBelow(rows + [x], key, next + 1)
  {
  }

  /** Appending a row whose value differs from every existing one keeps the column unique. */
  lemma AppendFreshText<T, K>(rows: seq<T>, field: T -> K, x: T)
    requires UniqueKeys(rows, field) && forall i :: 0 <= i < |rows| ==> field(rows[i]) != field(x)
    ensures UniqueKeys(rows + [x], field)
  {
  }

  /** Filtering a table with one more row at the end. */
  lemma WhereSnoc<T(!new)>(rows: seq<T>, x: T, p: T -> bool)
    ensures Where(rows + [x], p) == Where(rows, p) + (if p(x) then [x] else [])
  {
    WhereAppend(rows, [x], p);
    assert [x][1..] == [];
  }

  /** Filtering with two predicates that agree on every row gives the same rows. */
  lemma {:induction false} WhereSame<T(!new)>(rows: seq<T>, p: T -> bool, q: T -> bool)
    requires forall x :: p(x) == q(x)
    ensures Where(rows, p) == Where(rows, q)
    decreases |rows|
  {
    if rows != [] {
      WhereSame(rows[1..], p, q);
    }
  }

  /** Two disjoint selections together are no larger than any selection covering both. */
  lemma {:induction false} WhereDisjoint<T(!new)>(rows: seq<T>, p: T -> bool, q: T -> bool, r: T -> bool)
    requires forall x :: !(p(x) && q(x))
    requires forall x :: p(x) || q(x) ==> r(x)
    ensures |Where(rows, p)| + |Where(rows, q)| <= |Where(rows, r)|
    decreases |rows|
  {
    if rows != [] {
      WhereDisjoint(rows[1..], p, q, r);
    }
  }

  /** Replacing a row by one whose value no other row has keeps the column unique. */
  lemma ReplaceFreshText<T, K>(rows: seq<T>, field: T -> K, k: nat, x: T)
    requires UniqueKeys(rows, field) && k < |rows|
    requires forall i :: 0 <= i < |rows| && i != k ==> field(rows[i]) != field(x)
    ensures UniqueKeys(rows[k := x], field)
  {
    var t := rows[k := x];
    forall i, j | 0 <= i < j < |t| ensures field(t[i]) != field(t[j]) {
      if i != k && j != k { assert t[i] == rows[i] && t[j] == rows[j]; }
    }
  }

  /** Filtering distributes over concatenation. */
  lemma {:induction false} WhereAppend<T(!new)>(a: seq<T>, b: seq<T>, p: T -> bool)
    ensures Where(a + b, p) == Where(a, p) + Where(b, p)
    decreases |a|
  {
    if a == [] {
      assert a + b == b;
    } else {
      var x, t := a[0], a[1..];
      assert a + b == [x] + (t + b);
      WhereCons(x, t + b, p);
      WhereAppend(t, b, p);
      if p(x) {
        calc {
          Where(a + b, p);
          [x] + Where(t + b, p);
          [x] + (Where(t, p) + Where(b, p));
          ([x] + Where(t, p)) + Where(b, p);
        }
      }
    }
  }

  /** Unfolding the filter at the first row. */
  lemma WhereCons<T(!new)>(x: T, rest: seq<T>, p: T -> bool)
    ensures Where([x] + rest, p) == (if p(x) then [x] + Where(rest, p) else Where(rest, p))
  {
    assert ([x] + rest)[1..] == rest;
  }

  /** A stricter filter keeps no more rows. */
  lemma {:induction false} WhereStricter<T(!new)>(rows: seq<T>, p: T -> bool, q: T -> bool)
    requires forall x :: p(x) ==> q(x)
    ensures |Where(rows, p)| <= |Where(rows, q)|
    decreases |rows|
  {
    if rows != [] {
      WhereStricter(rows[1..], p, q);
    }
  }
}
