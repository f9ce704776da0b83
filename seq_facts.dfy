/** Facts about sequences of point indices, shared by the solvers. */
module SeqFacts {

  /** No index occurs twice in `s`. */
  predicate Distinct(s: seq<nat>) {
    forall i, j :: 0 <= i < j < |s| ==> s[i] != s[j]
  }

  /** Every index in `s` names one of `n` points. */
  predicate Bounded(s: seq<nat>, n: nat) {
    forall i :: 0 <= i < |s| ==> s[i] < n
  }

  /**
   * The elements of `s` at the positions `t`, in that order: `t.map(i => s[i])`.
   * Used for the points a path visits and for the items a selection picks.
   */
  function Gather<T>(s: seq<T>, t: seq<nat>): (r: seq<T>)
    requires Bounded(t, |s|)
    ensures |r| == |t| && forall k :: 0 <= k < |t| ==> r[k] == s[t[k]]
  {
    seq(|t|, k requires 0 <= k < |t| => s[t[k]])
  }

  /** Gathering at `[i] + t` yields `s[i]` followed by what `t` gathers. */
  lemma GatherCons<T>(s: seq<T>, i: nat, t: seq<nat>)
    requires i < |s| && Bounded(t, |s|)
    ensures Bounded([i] + t, |s|) && Gather(s, [i] + t) == [s[i]] + Gather(s, t)
  {
    var u := [i] + t;
    forall k | 0 <= k < |u|
      ensures u[k] < |s|
    {
      if k > 0 {
        assert u[k] == t[k - 1];
      }
    }
    var g := Gather(s, u);
    forall k | 0 <= k < |g|
      ensures g[k] == ([s[i]] + Gather(s, t))[k]
    {
      if k > 0 {
        assert u[k] == t[k - 1];
      }
    }
  }

  /** The set of indices that occur in `s`. */
  function Elements(s: seq<nat>): set<nat> {
    set x | x in s
  }

  /** The indices 0 .. n-1. */
  function Range(n: nat): (r: set<nat>)
    ensures |r| == n
    ensures forall k: nat :: k in r <==> k < n
  {
    if n == 0 then {} else Range(n - 1) + {n - 1}
  }

  lemma {:induction false} DistinctCard(s: seq<nat>)
    requires Distinct(s)
    ensures |Elements(s)| == |s|
  {
    if s != [] {
      DistinctCard(s[1..]);
      assert Elements(s) == {s[0]} + Elements(s[1..]);
      assert s[0] !in Elements(s[1..]);
    }
  }

  /** A duplicate-free sequence of indices below n is no longer than n. */
  lemma DistinctLength(s: seq<nat>, n: nat)
    requires Distinct(s) && Bounded(s, n)
    ensures |s| <= n
  {
    DistinctCard(s);
    assert Elements(s) <= Range(n);
    SubsetCard(Elements(s), Range(n));
  }

  /** Pigeonhole: fewer than n distinct indices below n leave one out. */
  lemma MissingIndex(s: seq<nat>, n: nat) returns (m: nat)
    requires Distinct(s) && Bounded(s, n) && |s| < n
    ensures m < n && m !in s
  {
    DistinctCard(s);
    if Range(n) <= Elements(s) {
      SubsetCard(Range(n), Elements(s));
      assert false;
    }
    m :| m in Range(n) && m !in Elements(s);
  }

  /** A duplicate-free sequence of indices below n that holds every one of them has length n. */
  lemma CoveringLength(s: seq<nat>, n: nat)
    requires Distinct(s) && Bounded(s, n) && forall k: nat :: k < n ==> k in s
    ensures |s| == n
  {
    DistinctCard(s);
    assert Elements(s) == Range(n);
  }

  /**
   * Gathering at every position of `s` exactly once, in any order, yields the
   * elements of `s` with their multiplicities.
   */
  lemma {:induction false} GatherPermutation<T>(s: seq<T>, t: seq<nat>)
    requires Distinct(t) && Bounded(t, |s|) && |t| == |s|
    ensures multiset(Gather(s, t)) == multiset(s)
    decreases |s|
  {
    if s != [] {
      var n := |s| - 1;
      Covers(t, |s|);
      assert n in t;
      var p :| 0 <= p < |t| && t[p] == n;
      DropIndex(t, p, n);
      var t' := t[..p] + t[p + 1..];
      GatherPermutation(s[..n], t');
      GatherDrop(s, t, p);
      assert s == s[..n] + [s[n]];
    }
  }

  /**
   * Gathering at duplicate-free positions of `s` takes each element no more
   * often than `s` holds it.
   */
  lemma {:induction false} GatherDistinct<T>(s: seq<T>, t: seq<nat>)
    requires Distinct(t) && Bounded(t, |s|)
    ensures multiset(Gather(s, t)) <= multiset(s)
    decreases |s|
  {
    if s != [] {
      var n := |s| - 1;
      assert s == s[..n] + [s[n]];
      if n in t {
        var p :| 0 <= p < |t| && t[p] == n;
        DropIndex(t, p, n);
        GatherDistinct(s[..n], t[..p] + t[p + 1..]);
        GatherDrop(s, t, p);
      } else {
        assert Bounded(t, n);
        GatherDistinct(s[..n], t);
        assert Gather(s, t) == Gather(s[..n], t);
      }
    }
  }

  /** Taking the last index n out of a duplicate-free list leaves indices below n, still without duplicates. */
  lemma DropIndex(t: seq<nat>, p: nat, n: nat)
    requires Distinct(t) && Bounded(t, n + 1) && p < |t| && t[p] == n
    ensures Distinct(t[..p] + t[p + 1..]) && Bounded(t[..p] + t[p + 1..], n)
  {
    var t' := t[..p] + t[p + 1..];
    assert forall k :: 0 <= k < |t'| ==> t'[k] == if k < p then t[k] else t[k + 1];
  }

  /** Gathering at `t` is gathering without the last position, plus the last element once. */
  lemma GatherDrop<T>(s: seq<T>, t: seq<nat>, p: nat)
    requires s != [] && Bounded(t, |s|) && p < |t| && t[p] == |s| - 1
    requires Bounded(t[..p] + t[p + 1..], |s| - 1)
    ensures multiset(Gather(s, t)) == multiset(Gather(s[..|s| - 1], t[..p] + t[p + 1..])) + multiset{s[|s| - 1]}
  {
    var g := Gather(s, t);
    var t' := t[..p] + t[p + 1..];
    var g' := Gather(s[..|s| - 1], t');
    assert g' == g[..p] + g[p + 1..] by {
      forall k | 0 <= k < |g'| ensures g'[k] == (g[..p] + g[p + 1..])[k] {
        if k < p {
          assert t'[k] == t[k];
        } else {
          assert t'[k] == t[k + 1];
        }
      }
    }
    assert g == g[..p] + [s[|s| - 1]] + g[p + 1..];
  }

  /** Pigeonhole: n distinct indices below n are all of them. */
  lemma Covers(s: seq<nat>, n: nat)
    requires Distinct(s) && Bounded(s, n) && |s| == n
    ensures forall k: nat :: k < n ==> k in s
  {
    DistinctCard(s);
    forall k: nat | k < n ensures k in s {
      if k !in s {
        assert k in Range(n);
        assert |Range(n) - {k}| == n - 1;
        assert Elements(s) <= Range(n) - {k};
        SubsetCard(Elements(s), Range(n) - {k});
      }
    }
  }

  lemma SubsetCard<T>(a: set<T>, b: set<T>)
    requires a <= b
    ensures |a| <= |b|
  {
    assert b == a + (b - a);
  }

  lemma ProperSubsetCard<T>(a: set<T>, b: set<T>)
    requires a < b
    ensures |a| < |b|
  {
    assert b - a != {};
    var x :| x in b - a;
    SubsetCard(a, b - {x});
    assert b == (b - {x}) + {x};
  }
}
