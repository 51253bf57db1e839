/** `ORDER BY` and `Array.prototype.sort`: a stable insertion sort under a comparison
    `le`, with the two facts every caller needs: the result is a permutation of the
    input, and it is ordered whenever `le` is a total preorder. */
module Sorting {

  ghost predicate TotalPreorder<T(!new)>(le: (T, T) -> bool)
  {
    && (forall a, b :: le(a, b) || le(b, a))
    && (forall a, b, c :: le(a, b) && le(b, c) ==> le(a, c))
  }

  predicate Sorted<T>(s: seq<T>, le: (T, T) -> bool)
  {
    forall i, j :: 0 <= i < j < |s| ==> le(s[i], s[j])
  }

  /** Puts x before the first element it is `le` to, so equal elements keep their order. */
  function Insert<T>(x: T, s: seq<T>, le: (T, T) -> bool): (r: seq<T>)
    ensures multiset(r) == multiset(s) + multiset{x}
    ensures |r| == |s| + 1
    decreases |s|
  {
    if s == [] then [x]
    else
      assert s == [s[0]] + s[1..];
      if le(x, s[0]) then [x] + s else [s[0]] + Insert(x, s[1..], le)
  }

  function Sort<T>(s: seq<T>, le: (T, T) -> bool): (r: seq<T>)
    ensures multiset(r) == multiset(s)
    ensures |r| == |s|
    decreases |s|
  {
    if s == [] then []
    else
      assert s == [s[0]] + s[1..];
      Insert(s[0], Sort(s[1..], le), le)
  }

  /** A lower bound of a sorted sequence can go in front of it. */
  lemma SortedCons<T>(a: T, r: seq<T>, le: (T, T) -> bool)
    requires Sorted(r, le) && forall k :: 0 <= k < |r| ==> le(a, r[k])
    ensures Sorted([a] + r, le)
  {
    var t := [a] + r;
    forall i, j | 0 <= i < j < |t| ensures le(t[i], t[j]) {
      assert t[j] == r[j - 1];
      if i > 0 {
        assert t[i] == r[i - 1];
      }
    }
  }

  /** Inserting an element above a lower bound keeps the bound. */
  lemma InsertLowerBound<T>(a: T, x: T, t: seq<T>, le: (T, T) -> bool)
    requires le(a, x) && forall k :: 0 <= k < |t| ==> le(a, t[k])
    ensures forall k :: 0 <= k < |Insert(x, t, le)| ==> le(a, Insert(x, t, le)[k])
  {
    var r := Insert(x, t, le);
    forall k | 0 <= k < |r| ensures le(a, r[k]) {
      assert r[k] in multiset(r);
      if r[k] != x {
        assert r[k] in multiset(t);
        var m :| 0 <= m < |t| && t[m] == r[k];
      }
    }
  }

  lemma {:induction false} InsertSorted<T(!new)>(x: T, s: seq<T>, le: (T, T) -> bool)
    requires TotalPreorder(le) && Sorted(s, le)
    ensures Sorted(Insert(x, s, le), le)
    decreases |s|
  {
    if s != [] {
      if le(x, s[0]) {
        forall k | 0 <= k < |s| ensures le(x, s[k]) {
          if k > 0 {
            assert le(s[0], s[k]);
          }
        }
        SortedCons(x, s, le);
      } else {
        var t := s[1..];
        assert Sorted(t, le);
        InsertSorted(x, t, le);
        assert le(s[0], x);
        forall k | 0 <= k < |t| ensures le(s[0], t[k]) {
          assert t[k] == s[k + 1];
        }
        InsertLowerBound(s[0], x, t, le);
        SortedCons(s[0], Insert(x, t, le), le);
      }
    }
  }

  lemma {:induction false} SortSorted<T(!new)>(s: seq<T>, le: (T, T) -> bool)
    requires TotalPreorder(le)
    ensures Sorted(Sort(s, le), le)
    decreases |s|
  {
    if s != [] {
      SortSorted(s[1..], le);
      InsertSorted(s[0], Sort(s[1..], le), le);
    }
  }

  /** `ORDER BY first, second`: the second comparison decides only between rows the
      first one ranks equal. */
  function Lex<T>(first: (T, T) -> bool, second: (T, T) -> bool): (T, T) -> bool
  {
    (a: T, b: T) => (first(a, b) && !first(b, a)) || (first(a, b) && first(b, a) && second(a, b))
  }

  lemma LexPreorder<T(!new)>(first: (T, T) -> bool, second: (T, T) -> bool)
    requires TotalPreorder(first) && TotalPreorder(second)
    ensures TotalPreorder(Lex(first, second))
  {
    var le := Lex(first, second);
    forall a: T, b: T, c: T | le(a, b) && le(b, c) ensures le(a, c) {
      assert first(a, c);
      if first(c, a) {
        assert first(b, a) && first(c, b);
        assert second(a, b) && second(b, c);
      }
    }
  }

  /** Sorting neither adds nor drops an element. */
  lemma SortMembers<T>(s: seq<T>, le: (T, T) -> bool, x: T)
    ensures x in Sort(s, le) <==> x in s
  {
    assert x in Sort(s, le) <==> x in multiset(Sort(s, le));
    assert x in s <==> x in multiset(s);
  }

  /** No element occurs twice. */
  predicate Distinct<T(==)>(s: seq<T>)
  {
    forall i, j :: 0 <= i < j < |s| ==> s[i] != s[j]
  }

  lemma {:induction false} DistinctCounts<T>(s: seq<T>, x: T)
    requires Distinct(s)
    ensures multiset(s)[x] <= 1
    decreases |s|
  {
    if s != [] {
      assert s == [s[0]] + s[1..];
      assert Distinct(s[1..]) by {
        forall i, j | 0 <= i < j < |s[1..]| ensures s[1..][i] != s[1..][j] {
          assert s[1..][i] == s[i + 1] && s[1..][j] == s[j + 1];
        }
      }
      DistinctCounts(s[1..], x);
      if s[0] == x {
        assert x !in s[1..] by {
          forall j | 0 <= j < |s[1..]| ensures s[1..][j] != x {
            assert s[1..][j] == s[j + 1];
          }
        }
      }
    }
  }

  lemma RepeatCounts<T>(s: seq<T>, i: nat, j: nat)
    requires i < j < |s| && s[i] == s[j]
    ensures multiset(s)[s[i]] >= 2
  {
    assert s == s[..j] + [s[j]] + s[j + 1..];
    assert s[i] in s[..j];
  }

  /** A permutation of a sequence without repeats has none either. */
  lemma DistinctPermutation<T>(s: seq<T>, t: seq<T>)
    requires Distinct(s) && multiset(s) == multiset(t)
    ensures Distinct(t)
  {
    forall i, j | 0 <= i < j < |t| ensures t[i] != t[j] {
      if t[i] == t[j] {
        RepeatCounts(t, i, j);
        DistinctCounts(s, t[i]);
      }
    }
  }
}
