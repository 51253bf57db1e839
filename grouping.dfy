/** `GROUP BY key` with `COUNT(*)` over a sequence of rows, as the statistics queries
    use it: every distinct key once, with the number of rows that carry it. */
module Grouping {
  import opened Common
  import opened Tables

  /** Some group has key k. */
  predicate HasKey<K(==)>(groups: seq<(K, nat)>, k: K)
  {
    exists i :: 0 <= i < |groups| && groups[i].0 == k
  }

  /** No key is grouped twice. */
  predicate DistinctKeys<K(==)>(groups: seq<(K, nat)>)
  {
    forall i, j :: 0 <= i < j < |groups| ==> groups[i].0 != groups[j].0
  }

  function PositionOf<K(==)>(groups: seq<(K, nat)>, k: K): (r: Option<nat>)
    ensures r.None? <==> !HasKey(groups, k)
    ensures r.Some? ==> r.value < |groups| && groups[r.value].0 == k
    decreases |groups|
  {
    if groups == [] then None
    else if groups[0].0 == k then Some(0)
    else
      var r := PositionOf(groups[1..], k);
      if r.None? then
        assert forall i :: 1 <= i < |groups| ==> groups[i].0 == groups[1..][i - 1].0;
        None
      else Some(r.value + 1)
  }

  /** r groups `keys`: each group counts the rows with its key, no group is empty, every
      key of a row has a group and no key has two. */
  ghost predicate IsGrouping<K(!new)>(keys: seq<K>, r: seq<(K, nat)>)
  {
    && (forall i :: 0 <= i < |r| ==> r[i].1 == multiset(keys)[r[i].0] && r[i].1 > 0)
    && (forall k :: k in keys <==> HasKey(r, k))
    && DistinctKeys(r)
  }

  /** The groups in order of first appearance. */
  function GroupCount<K(==,!new)>(keys: seq<K>): (r: seq<(K, nat)>)
    ensures IsGrouping(keys, r)
    decreases |keys|
  {
    if keys == [] then []
    else
      var init := keys[..|keys| - 1];
      var k := keys[|keys| - 1];
      assert keys == init + [k];
      var prev := GroupCount(init);
      match PositionOf(prev, k)
      case None =>
        NewGroup(init, prev, k);
        prev + [(k, 1)]
      case Some(i) =>
        BumpGroup(init, prev, k, i);
        prev[i := (k, prev[i].1 + 1)]
  }

  lemma NewGroup<K(!new)>(init: seq<K>, prev: seq<(K, nat)>, k: K)
    requires IsGrouping(init, prev) && !HasKey(prev, k)
    ensures IsGrouping(init + [k], prev + [(k, 1)])
  {
    var keys := init + [k];
    var r := prev + [(k, 1)];
    assert multiset(init)[k] == 0;
    forall k' ensures HasKey(r, k') <==> HasKey(prev, k') || k' == k {
      if HasKey(prev, k') {
        var j :| 0 <= j < |prev| && prev[j].0 == k';
        assert r[j] == prev[j];
      }
      if HasKey(r, k') && k' != k {
        var j :| 0 <= j < |r| && r[j].0 == k';
        assert j < |prev| && r[j] == prev[j];
      }
      assert r[|prev|].0 == k;
    }
    forall k' ensures k' in keys <==> k' in init || k' == k { }
  }

  lemma BumpGroup<K(!new)>(init: seq<K>, prev: seq<(K, nat)>, k: K, i: nat)
    requires IsGrouping(init, prev) && i < |prev| && prev[i].0 == k
    ensures IsGrouping(init + [k], prev[i := (k, prev[i].1 + 1)])
  {
    var keys := init + [k];
    var r := prev[i := (k, prev[i].1 + 1)];
    assert forall j :: 0 <= j < |r| && j != i ==> r[j] == prev[j] && r[j].0 != k;
    forall k' ensures HasKey(r, k') <==> HasKey(prev, k') {
      if HasKey(prev, k') {
        var j :| 0 <= j < |prev| && prev[j].0 == k';
        assert r[j].0 == prev[j].0;
      }
      if HasKey(r, k') {
        var j :| 0 <= j < |r| && r[j].0 == k';
        assert r[j].0 == prev[j].0;
      }
    }
    forall k' ensures k' in keys <==> k' in init || k' == k { }
  }

  /** The sum of the counts. */
  function Total<K>(groups: seq<(K, nat)>): nat
    decreases |groups|
  {
    if groups == [] then 0 else Total(groups[..|groups| - 1]) + groups[|groups| - 1].1
  }

  lemma {:induction false} TotalUpdate<K>(groups: seq<(K, nat)>, i: nat, g: (K, nat))
    requires i < |groups|
    ensures Total(groups[i := g]) == Total(groups) - groups[i].1 + g.1
    decreases |groups|
  {
    var n := |groups|;
    var u := groups[i := g];
    assert u[..n - 1] == if i == n - 1 then groups[..n - 1] else groups[..n - 1][i := g];
    if i < n - 1 {
      TotalUpdate(groups[..n - 1], i, g);
    }
  }

  /** Grouping loses no row: the counts add up to the number of rows. */
  lemma {:induction false} GroupCountTotal<K(!new)>(keys: seq<K>)
    ensures Total(GroupCount(keys)) == |keys|
    decreases |keys|
  {
    if keys != [] {
      var init := keys[..|keys| - 1];
      var k := keys[|keys| - 1];
      GroupCountTotal(init);
      var prev := GroupCount(init);
      match PositionOf(prev, k)
      case None =>
        assert (prev + [(k, 1)])[..|prev|] == prev;
      case Some(i) =>
        TotalUpdate(prev, i, (k, prev[i].1 + 1));
    }
  }

  /** There are never more groups than rows (`COUNT(DISTINCT x) <= COUNT(x)`). */
  lemma GroupsAtMostRows<K(!new)>(keys: seq<K>)
    ensures |GroupCount(keys)| <= |keys|
  {
    GroupCountTotal(keys);
    TotalAtLeastSize(GroupCount(keys));
  }

  lemma {:induction false} TotalAtLeastSize<K>(groups: seq<(K, nat)>)
    requires forall i :: 0 <= i < |groups| ==> groups[i].1 > 0
    ensures Total(groups) >= |groups|
    decreases |groups|
  {
    if groups != [] {
      TotalAtLeastSize(groups[..|groups| - 1]);
    }
  }

  /** The grouping column of every row, in table order. */
  function Keys<T, K>(rows: seq<T>, key: T -> K): (r: seq<K>)
    ensures |r| == |rows| && forall i :: 0 <= i < |rows| ==> r[i] == key(rows[i])
  {
    seq(|rows|, i requires 0 <= i < |rows| => key(rows[i]))
  }

  /** The rows of one group. */
  function KeyIs<T, K(==)>(key: T -> K, k: K): T -> bool
  {
    x => key(x) == k
  }

  /** A group's count is the number of rows whose key is the group's key. */
  lemma {:induction false} CountMatches<T(!new), K(!new)>(rows: seq<T>, key: T -> K, k: K)
    ensures |Where(rows, KeyIs(key, k))| == multiset(Keys(rows, key))[k]
    decreases |rows|
  {
    if rows != [] {
      CountMatches(rows[1..], key, k);
      assert Keys(rows, key) == [key(rows[0])] + Keys(rows[1..], key);
    }
  }

  /** A key has a group iff some row carries it. */
  lemma GroupOfRow<T, K(!new)>(rows: seq<T>, key: T -> K, k: K)
    ensures HasKey(GroupCount(Keys(rows, key)), k) <==> exists x :: x in rows && key(x) == k
  {
    var keys := Keys(rows, key);
    if k in keys {
      var i :| 0 <= i < |keys| && keys[i] == k;
      assert rows[i] in rows;
    }
    if exists x :: x in rows && key(x) == k {
      var x :| x in rows && key(x) == k;
      var i :| 0 <= i < |rows| && rows[i] == x;
      assert keys[i] == k;
    }
  }

  /** Rows make at least one group. */
  lemma SomeGroup<K(!new)>(keys: seq<K>)
    requires keys != []
    ensures |GroupCount(keys)| > 0
  {
    assert keys[0] in keys && HasKey(GroupCount(keys), keys[0]);
  }

  /** A single row makes a single group of one. */
  lemma GroupOne<K(!new)>(k: K)
    ensures GroupCount([k]) == [(k, 1)]
  {
    assert [k][..0] == [];
  }
}
