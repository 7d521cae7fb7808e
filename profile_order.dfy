/**
  The joint sort of a sounding by pressure: `p.argsort()[::-1]` gives one
  order of the levels, and every per-level array is gathered through it.
*/
module ProfileOrder {

  /** The indices 0, 1, ..., n - 1. */
  function Range(n: nat): (r: seq<nat>)
    ensures |r| == n && forall k :: 0 <= k < n ==> r[k] == k
  {
    seq(n, k => k)
  }

  /** `order` lists each level index below `n` exactly once. */
  predicate IsPermutation(order: seq<nat>, n: nat)
  {
    |order| == n && (forall k :: 0 <= k < n ==> order[k] < n) && multiset(order) == multiset(Range(n))
  }

  /** Every index in `order` is a valid position of `p`. */
  predicate Indexes(order: seq<nat>, p: seq<real>)
  {
    forall k :: 0 <= k < |order| ==> order[k] < |p|
  }

  /** Reading `p` through `order` never decreases. */
  predicate AscendingBy(p: seq<real>, order: seq<nat>)
    requires Indexes(order, p)
  {
    forall a, b :: 0 <= a < b < |order| ==> p[order[a]] <= p[order[b]]
  }

  /** Reading `p` through `order` never increases. */
  predicate DescendingBy(p: seq<real>, order: seq<nat>)
    requires Indexes(order, p)
  {
    forall a, b :: 0 <= a < b < |order| ==> p[order[a]] >= p[order[b]]
  }

  predicate NonIncreasing(s: seq<real>)
  {
    forall a, b :: 0 <= a < b < |s| ==> s[a] >= s[b]
  }

  /** Puts index `i` into an ascending order, after every index whose value does not exceed `p[i]`. */
  function Insert(p: seq<real>, i: nat, order: seq<nat>): (r: seq<nat>)
    requires i < |p| && Indexes(order, p)
    ensures |r| == |order| + 1 && Indexes(r, p)
    ensures multiset(r) == multiset(order) + multiset{i}
  {
    if order == [] then [i]
    else if p[i] < p[order[0]] then [i] + order
    else
      assert order == [order[0]] + order[1..];
      [order[0]] + Insert(p, i, order[1..])
  }

  /** Inserting an index whose value is at least `v` among values at least `v` keeps them all at least `v`. */
  lemma {:induction false} InsertAbove(p: seq<real>, i: nat, order: seq<nat>, v: real)
    requires i < |p| && Indexes(order, p) && p[i] >= v
    requires forall k :: 0 <= k < |order| ==> p[order[k]] >= v
    ensures forall k :: 0 <= k < |order| + 1 ==> p[Insert(p, i, order)[k]] >= v
  {
    if order != [] && p[i] >= p[order[0]] {
      InsertAbove(p, i, order[1..], v);
    }
  }

  /** Inserting into an ascending order keeps it ascending. */
  lemma {:induction false} InsertAscending(p: seq<real>, i: nat, order: seq<nat>)
    requires i < |p| && Indexes(order, p) && AscendingBy(p, order)
    ensures AscendingBy(p, Insert(p, i, order))
  {
    if order != [] && p[i] >= p[order[0]] {
      var tail := order[1..];
      InsertAscending(p, i, tail);
      assert forall k :: 0 <= k < |tail| ==> p[tail[k]] >= p[order[0]] by {
        forall k | 0 <= k < |tail| ensures p[tail[k]] >= p[order[0]] {
          assert tail[k] == order[k + 1];
        }
      }
      InsertAbove(p, i, tail, p[order[0]]);
    }
  }

  /** Insertion argsort of the first `n` values of `p`. */
  function ArgSortPrefix(p: seq<real>, n: nat): (r: seq<nat>)
    requires n <= |p|
    ensures Indexes(r, p)
    ensures IsPermutation(r, n)
    ensures AscendingBy(p, r)
  {
    if n == 0 then []
    else
      var before := ArgSortPrefix(p, n - 1);
      InsertExtends(p, n, before);
      Insert(p, n - 1, before)
  }

  /**
    Inserting the next index into an ascending permutation of the indices
    before it gives an ascending permutation of one more.
  */
  lemma InsertExtends(p: seq<real>, n: nat, before: seq<nat>)
    requires 0 < n <= |p| && Indexes(before, p) && IsPermutation(before, n - 1) && AscendingBy(p, before)
    ensures Indexes(Insert(p, n - 1, before), p)
    ensures IsPermutation(Insert(p, n - 1, before), n)
    ensures AscendingBy(p, Insert(p, n - 1, before))
  {
    InsertAscending(p, n - 1, before);
    var r := Insert(p, n - 1, before);
    assert Range(n) == Range(n - 1) + [n - 1];
    forall k | 0 <= k < |r|
      ensures r[k] < n
    {
      assert r[k] in multiset(r);
      if r[k] != n - 1 {
        assert r[k] in multiset(before);
        var m :| 0 <= m < |before| && before[m] == r[k];
      }
    }
  }

  /**
    `p.argsort()`: an order of all the levels under which `p` ascends. Equal
    values keep their original relative order here.
  */
  function ArgSort(p: seq<real>): (r: seq<nat>)
    ensures Indexes(r, p) && IsPermutation(r, |p|) && AscendingBy(p, r)
  {
    ArgSortPrefix(p, |p|)
  }

  /** `s[::-1]`. */
  function Reversed(s: seq<nat>): (r: seq<nat>)
    ensures |r| == |s| && forall k :: 0 <= k < |s| ==> r[k] == s[|s| - 1 - k]
  {
    seq(|s|, k requires 0 <= k < |s| => s[|s| - 1 - k])
  }

  lemma {:induction false} ReversedMultiset(s: seq<nat>)
    ensures multiset(Reversed(s)) == multiset(s)
  {
    if s != [] {
      ReversedMultiset(s[1..]);
      assert Reversed(s) == Reversed(s[1..]) + [s[0]];
      assert s == [s[0]] + s[1..];
    }
  }

  /**
    `p.argsort()[::-1]`: the level order that puts pressure first-highest.
    It lists every level exactly once and reads `p` in non-increasing order.
  */
  function DescendingOrder(p: seq<real>): (order: seq<nat>)
    ensures Indexes(order, p)
    ensures IsPermutation(order, |p|)
    ensures DescendingBy(p, order)
  {
    ReversedMultiset(ArgSort(p));
    Reversed(ArgSort(p))
  }

  /** `a[order]`: the values of `a` taken in the given order. */
  function Gather(a: seq<real>, order: seq<nat>): (r: seq<real>)
    requires Indexes(order, a)
    ensures |r| == |order| && forall k :: 0 <= k < |order| ==> r[k] == a[order[k]]
  {
    seq(|order|, k requires 0 <= k < |order| => a[order[k]])
  }

  /** Dropping position `m` from an order drops one index and one gathered value. */
  lemma GatherRemoveAt(a: seq<real>, t: seq<nat>, m: nat)
    requires Indexes(t, a) && m < |t|
    ensures Indexes(t[..m] + t[m + 1..], a)
    ensures multiset(t[..m] + t[m + 1..]) == multiset(t) - multiset{t[m]}
    ensures multiset(Gather(a, t)) == multiset(Gather(a, t[..m] + t[m + 1..])) + multiset{a[t[m]]}
  {
    var u, x, v := t[..m], t[m], t[m + 1..];
    assert t == u + [x] + v;
    assert multiset(t) == multiset(u) + multiset{x} + multiset(v);
    var gu, gv := Gather(a, u), Gather(a, v);
    assert Gather(a, t) == gu + [a[x]] + gv;
    assert Gather(a, u + v) == gu + gv;
    assert multiset(Gather(a, t)) == multiset(gu) + multiset{a[x]} + multiset(gv);
  }

  /** Dropping the first position of an order drops one index and one gathered value. */
  lemma GatherDropFirst(a: seq<real>, s: seq<nat>)
    requires Indexes(s, a) && s != []
    ensures Indexes(s[1..], a)
    ensures multiset(s[1..]) == multiset(s) - multiset{s[0]}
    ensures multiset(Gather(a, s)) == multiset(Gather(a, s[1..])) + multiset{a[s[0]]}
  {
    assert s == [s[0]] + s[1..];
    assert Gather(a, s) == [a[s[0]]] + Gather(a, s[1..]);
  }

  /** Gathering through two orders with the same indices gives the same values. */
  lemma {:induction false} GatherSameIndices(a: seq<real>, s: seq<nat>, t: seq<nat>)
    requires Indexes(s, a) && Indexes(t, a) && multiset(s) == multiset(t)
    ensures multiset(Gather(a, s)) == multiset(Gather(a, t))
    decreases |s|
  {
    if s == [] {
      assert |t| == |multiset(t)| == 0;
    } else {
      GatherDropFirst(a, s);
      var m := FindIndex(t, s[0]);
      GatherRemoveAt(a, t, m);
      GatherSameIndices(a, s[1..], t[..m] + t[m + 1..]);
    }
  }

  /** A position of `t` holding `x`, for an `x` that occurs in `t`. */
  lemma FindIndex(t: seq<nat>, x: nat) returns (m: nat)
    requires multiset(t)[x] > 0
    ensures m < |t| && t[m] == x
  {
    assert x in t;
    m :| 0 <= m < |t| && t[m] == x;
  }

  /** Gathering through a permutation of the levels keeps every value, as often as before. */
  lemma GatherPermutes(a: seq<real>, order: seq<nat>)
    requires IsPermutation(order, |a|)
    ensures Indexes(order, a) && multiset(Gather(a, order)) == multiset(a)
  {
    GatherSameIndices(a, order, Range(|a|));
    assert Gather(a, Range(|a|)) == a;
  }

  /**
    Sorting by the descending order: the pressures come out non-increasing
    and are the same pressures as before.
  */
  lemma SortedPressure(p: seq<real>)
    ensures Indexes(DescendingOrder(p), p)
    ensures NonIncreasing(Gather(p, DescendingOrder(p)))
    ensures multiset(Gather(p, DescendingOrder(p))) == multiset(p)
  {
    GatherPermutes(p, DescendingOrder(p));
  }

}
