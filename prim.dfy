/**
 * The spanning-tree solver: grow a tree from point 0 by repeatedly taking the
 * shortest positive edge from a reached to an unreached point, then report
 * the depth-first order of that tree and the total weight of its edges.
 */
module Prim {
  import opened SeqFacts
  import opened RouteTypes
  import opened Distances

  /** A tree edge `{ from, to, weight }`: `from` was reached before, `to` is newly reached. */
  datatype Edge = Edge(from: nat, to: nat, weight: real)

  /** The points the tree `mst` reaches: point 0 and the `to` of every edge. */
  function Reached(mst: seq<Edge>): set<nat>
  {
    if mst == [] then {0} else Reached(mst[..|mst| - 1]) + {mst[|mst| - 1].to}
  }

  // ------------------------------------------------------------ edge choice

  /** The scan considers (u, v): u reached, v not, and a positive distance between them. */
  predicate IsCandidate(d: seq<seq<real>>, reached: set<nat>, u: nat, v: nat)
    requires IsSquare(d)
  {
    u < |d| && v < |d| && u in reached && v !in reached && d[u][v] > 0.0
  }

  /** (u1, v1) comes before (u2, v2) in the scan's row-by-row order. */
  predicate Before(u1: nat, v1: nat, u2: nat, v2: nat) {
    u1 < u2 || (u1 == u2 && v1 < v2)
  }

  /**
   * The edge one scan picks: a candidate of least weight, and strictly
   * lighter than every candidate scanned before it (the scan replaces its
   * choice only on a strict `<`).
   */
  ghost predicate IsFirstMinEdge(d: seq<seq<real>>, reached: set<nat>, e: Edge)
    requires IsSquare(d)
  {
    && IsCandidate(d, reached, e.from, e.to) && e.weight == d[e.from][e.to]
    && (forall u: nat, v: nat :: IsCandidate(d, reached, u, v) ==> e.weight <= d[u][v])
    && (forall u: nat, v: nat :: IsCandidate(d, reached, u, v) && Before(u, v, e.from, e.to) ==> e.weight < d[u][v])
  }

  ghost predicate NoCandidate(d: seq<seq<real>>, reached: set<nat>)
    requires IsSquare(d)
  {
    forall u: nat, v: nat :: !IsCandidate(d, reached, u, v)
  }

  /**
   * `mst` is what `prim` returns for `d`: each edge is the scan's choice over
   * the points reached by the edges before it, at most n - 1 edges are taken,
   * and fewer only when no candidate is left.
   */
  ghost predicate IsPrimTree(d: seq<seq<real>>, mst: seq<Edge>)
    requires IsSquare(d)
  {
    && |d| > 0 && |mst| <= |d| - 1
    && (forall k :: 0 <= k < |mst| ==> PrimStep(d, mst, k))
    && (|mst| < |d| - 1 ==> NoCandidate(d, Reached(mst)))
  }

  /** Edge k is the scan's choice over the points the edges before it reach. */
  ghost predicate PrimStep(d: seq<seq<real>>, mst: seq<Edge>, k: nat)
    requires IsSquare(d) && k < |mst|
  {
    IsFirstMinEdge(d, Reached(mst[..k]), mst[k])
  }

  /** At most one edge satisfies the scan's choice rule. */
  lemma FirstMinEdgeUnique(d: seq<seq<real>>, reached: set<nat>, e1: Edge, e2: Edge)
    requires IsSquare(d) && IsFirstMinEdge(d, reached, e1) && IsFirstMinEdge(d, reached, e2)
    ensures e1 == e2
  {
    assert IsCandidate(d, reached, e1.from, e1.to) && IsCandidate(d, reached, e2.from, e2.to);
    assert e1.weight == e2.weight;
    assert !Before(e1.from, e1.to, e2.from, e2.to) && !Before(e2.from, e2.to, e1.from, e1.to);
  }

  /**
   * The scan over visited u and unvisited v of `prim`. While nothing is
   * chosen, `minWeight` is `Infinity`; the model expresses that with `minTo == -1`.
   */
  method FindMinEdge(d: seq<seq<real>>, visited: array<bool>, ghost reached: set<nat>)
    returns (minFrom: int, minTo: int, minWeight: real)
    requires IsSquare(d) && visited.Length == |d|
    requires forall j: nat :: j < |d| ==> (visited[j] <==> j in reached)
    ensures minTo == -1 <==> NoCandidate(d, reached)
    ensures minTo != -1 ==> 0 <= minFrom && 0 <= minTo && IsFirstMinEdge(d, reached, Edge(minFrom, minTo, minWeight))
  {
    var n := |d|;
    minWeight, minFrom, minTo := 0.0, -1, -1;
    for u := 0 to n
      invariant minTo == -1 ==> forall a: nat, b: nat :: a < u ==> !IsCandidate(d, reached, a, b)
      invariant minTo != -1 ==> 0 <= minFrom < u && 0 <= minTo && IsCandidate(d, reached, minFrom, minTo)
      invariant minTo != -1 ==> minWeight == d[minFrom][minTo]
      invariant minTo != -1 ==> forall a: nat, b: nat :: a < u && IsCandidate(d, reached, a, b) ==> minWeight <= d[a][b]
      invariant minTo != -1 ==> forall a: nat, b: nat ::
        IsCandidate(d, reached, a, b) && Before(a, b, minFrom, minTo) ==> minWeight < d[a][b]
    {
      if visited[u] {
        for v := 0 to n
          invariant minTo == -1 ==> forall a: nat, b: nat :: Before(a, b, u, v) ==> !IsCandidate(d, reached, a, b)
          invariant minTo != -1 ==> 0 <= minFrom && 0 <= minTo && Before(minFrom, minTo, u, v)
          invariant minTo != -1 ==> IsCandidate(d, reached, minFrom, minTo) && minWeight == d[minFrom][minTo]
          invariant minTo != -1 ==> forall a: nat, b: nat ::
            Before(a, b, u, v) && IsCandidate(d, reached, a, b) ==> minWeight <= d[a][b]
          invariant minTo != -1 ==> forall a: nat, b: nat ::
            IsCandidate(d, reached, a, b) && Before(a, b, minFrom, minTo) ==> minWeight < d[a][b]
        {
          if !visited[v] && d[u][v] > 0.0 && (minTo == -1 || d[u][v] < minWeight) {
            minWeight := d[u][v];
            minFrom := u;
            minTo := v;
          }
        }
      }
    }
  }

  /** `prim`: mark point 0, then n - 1 times add the scan's edge and mark its new end. */
  method PrimTree(d: seq<seq<real>>) returns (mst: seq<Edge>)
    requires IsSquare(d)
    ensures |d| == 0 ==> mst == []
    ensures |d| > 0 ==> IsPrimTree(d, mst)
  {
    var n := |d|;
    mst := [];
    if n == 0 {
      return;
    }
    var visited := new bool[n](_ => false);
    visited[0] := true;
    for i := 0 to n - 1
      invariant |mst| <= i
      invariant forall j: nat :: j < n ==> (visited[j] <==> j in Reached(mst))
      invariant forall k :: 0 <= k < |mst| ==> PrimStep(d, mst, k)
      invariant |mst| < i ==> NoCandidate(d, Reached(mst))
    {
      var minFrom, minTo, minWeight := FindMinEdge(d, visited, Reached(mst));
      if minTo != -1 {
        visited[minTo] := true;
        var e := Edge(minFrom, minTo, minWeight);
        assert forall k :: 0 <= k <= |mst| ==> (mst + [e])[..k] == mst[..k];
        assert forall k :: 0 <= k < |mst| ==> PrimStep(d, mst, k) ==> PrimStep(d, mst + [e], k);
        mst := mst + [e];
        assert PrimStep(d, mst, |mst| - 1);
      }
    }
  }

  // ---------------------------------------------------------- tree facts

  /** Every edge's `from` was reached by the edges before it. */
  predicate GrowsFromRoot(mst: seq<Edge>) {
    forall k :: 0 <= k < |mst| ==> mst[k].from in Reached(mst[..k])
  }

  predicate EdgesBounded(mst: seq<Edge>, n: nat) {
    forall k :: 0 <= k < |mst| ==> mst[k].from < n && mst[k].to < n
  }

  lemma {:induction false} ReachedHas(mst: seq<Edge>)
    ensures 0 in Reached(mst)
    ensures forall k :: 0 <= k < |mst| ==> mst[k].to in Reached(mst)
    ensures forall j :: j in Reached(mst) ==> j == 0 || exists k :: 0 <= k < |mst| && mst[k].to == j
  {
    if mst != [] {
      var init := mst[..|mst| - 1];
      ReachedHas(init);
      forall j | j in Reached(mst) ensures j == 0 || exists k :: 0 <= k < |mst| && mst[k].to == j {
        if j in Reached(init) && j != 0 {
          var k :| 0 <= k < |init| && init[k].to == j;
          assert mst[k].to == j;
        }
      }
    }
  }

  /**
   * The edges `prim` picks have positive weight equal to the table entry, join
   * an already reached point to a new one, never reach back to point 0, never
   * reach the same point twice, and so reach one point more than they number.
   */
  lemma PrimTreeShape(d: seq<seq<real>>, mst: seq<Edge>)
    requires IsSquare(d) && IsPrimTree(d, mst)
    ensures EdgesBounded(mst, |d|) && GrowsFromRoot(mst)
    ensures forall k :: 0 <= k < |mst| ==> mst[k].weight > 0.0 && mst[k].weight == d[mst[k].from][mst[k].to]
    ensures forall k :: 0 <= k < |mst| ==> mst[k].to != 0
    ensures forall j, k :: 0 <= j < k < |mst| ==> mst[j].to != mst[k].to
    ensures |Reached(mst)| == |mst| + 1
  {
    forall k | 0 <= k < |mst| ensures mst[k].to != 0 {
      ReachedHas(mst[..k]);
      assert PrimStep(d, mst, k);
    }
    forall j, k | 0 <= j < k < |mst| ensures mst[j].to != mst[k].to {
      ReachedHas(mst[..k]);
      assert mst[..k][j] == mst[j];
      assert PrimStep(d, mst, k);
    }
    forall k | 0 <= k < |mst| ensures mst[k].to !in Reached(mst[..k]) && mst[k].from in Reached(mst[..k]) {
      assert PrimStep(d, mst, k);
    }
    forall k | 0 <= k < |mst|
      ensures mst[k].from < |d| && mst[k].to < |d|
      ensures mst[k].weight > 0.0 && mst[k].weight == d[mst[k].from][mst[k].to]
    {
      assert PrimStep(d, mst, k);
    }
    ReachedCard(mst);
  }

  /** Edges that never reach back to 0 or to a point reached before reach one new point each. */
  lemma {:induction false} ReachedCard(mst: seq<Edge>)
    requires forall k :: 0 <= k < |mst| ==> mst[k].to !in Reached(mst[..k])
    ensures |Reached(mst)| == |mst| + 1
  {
    if mst != [] {
      var init := mst[..|mst| - 1];
      assert forall k :: 0 <= k < |init| ==> init[..k] == mst[..k];
      ReachedCard(init);
      assert init == mst[..|mst| - 1];
    }
  }

  /** The points of the table rows: the tree never reaches outside 0 .. n-1. */
  lemma {:induction false} ReachedBounded(mst: seq<Edge>, n: nat)
    requires EdgesBounded(mst, n) && n > 0
    ensures Reached(mst) <= Range(n)
  {
    if mst != [] {
      ReachedBounded(mst[..|mst| - 1], n);
    }
  }

  /** When no two points coincide, the tree has n - 1 edges and reaches every point. */
  lemma PrimSpans(d: seq<seq<real>>, mst: seq<Edge>)
    requires IsSquare(d) && IsPrimTree(d, mst) && PositiveOffDiagonal(d)
    ensures |mst| == |d| - 1
    ensures forall j: nat :: j < |d| ==> j in Reached(mst)
  {
    PrimTreeShape(d, mst);
    ReachedBounded(mst, |d|);
    ReachedHas(mst);
    ReachedAll(d, Reached(mst), |mst|);
  }

  /**
   * The counting step of `PrimSpans`: m + 1 reached points, and no candidate
   * left unless m = n - 1, mean n - 1 edges and every point reached.
   */
  lemma ReachedAll(d: seq<seq<real>>, reached: set<nat>, m: nat)
    requires IsSquare(d) && PositiveOffDiagonal(d) && 0 < |d|
    requires 0 in reached && reached <= Range(|d|) && |reached| == m + 1 && m <= |d| - 1
    requires m < |d| - 1 ==> NoCandidate(d, reached)
    ensures m == |d| - 1
    ensures forall j: nat :: j < |d| ==> j in reached
  {
    var n := |d|;
    CandidateLeft(d, reached);
    forall j: nat | j < n ensures j in reached {
      if j !in reached {
        assert reached < Range(n);
        ProperSubsetCard(reached, Range(n));
      }
    }
  }

  /** While some point is unreached, the scan still has a candidate from point 0. */
  lemma CandidateLeft(d: seq<seq<real>>, reached: set<nat>)
    requires IsSquare(d) && PositiveOffDiagonal(d)
    requires 0 in reached && reached <= Range(|d|)
    ensures |reached| < |d| ==> !NoCandidate(d, reached)
  {
    if |reached| < |d| {
      if Range(|d|) <= reached {
        SubsetCard(Range(|d|), reached);
      }
      var v :| v in Range(|d|) && v !in reached;
      assert IsCandidate(d, reached, 0, v);
    }
  }

  /** The table determines the tree: two runs of `prim` pick the same edges. */
  lemma PrimTreeUnique(d: seq<seq<real>>, m1: seq<Edge>, m2: seq<Edge>)
    requires IsSquare(d) && IsPrimTree(d, m1) && IsPrimTree(d, m2)
    ensures m1 == m2
  {
    var k := if |m1| <= |m2| then |m1| else |m2|;
    PrimPrefixesAgree(d, m1, m2, k);
    PrimTreeNotShorter(d, m1, m2);
    PrimTreeNotShorter(d, m2, m1);
    assert m1 == m1[..k] && m2 == m2[..k];
  }

  /** A tree whose edges begin another tree's is not shorter than it. */
  lemma PrimTreeNotShorter(d: seq<seq<real>>, m1: seq<Edge>, m2: seq<Edge>)
    requires IsSquare(d) && IsPrimTree(d, m1) && IsPrimTree(d, m2)
    requires |m1| <= |m2| ==> m1 == m2[..|m1|]
    ensures |m1| >= |m2|
  {
    if |m1| < |m2| {
      NextEdgeIsCandidate(d, m2, |m1|);
      assert false;
    }
  }

  /** The edge after a prefix of the tree is a candidate for the points that prefix reaches. */
  lemma NextEdgeIsCandidate(d: seq<seq<real>>, mst: seq<Edge>, k: nat)
    requires IsSquare(d) && IsPrimTree(d, mst) && k < |mst|
    ensures IsCandidate(d, Reached(mst[..k]), mst[k].from, mst[k].to)
  {
    assert PrimStep(d, mst, k);
  }

  lemma {:induction false} PrimPrefixesAgree(d: seq<seq<real>>, m1: seq<Edge>, m2: seq<Edge>, k: nat)
    requires IsSquare(d) && IsPrimTree(d, m1) && IsPrimTree(d, m2)
    requires k <= |m1| && k <= |m2|
    ensures m1[..k] == m2[..k]
  {
    if k > 0 {
      PrimPrefixesAgree(d, m1, m2, k - 1);
      assert PrimStep(d, m1, k - 1) && PrimStep(d, m2, k - 1);
      FirstMinEdgeUnique(d, Reached(m1[..k - 1]), m1[k - 1], m2[k - 1]);
      assert m1[..k] == m1[..k - 1] + [m1[k - 1]];
      assert m2[..k] == m2[..k - 1] + [m2[k - 1]];
    }
  }

  /** `mst.reduce((sum, edge) => sum + edge.weight, 0)`. */
  function TreeWeight(mst: seq<Edge>): real {
    if mst == [] then 0.0 else TreeWeight(mst[..|mst| - 1]) + mst[|mst| - 1].weight
  }

  /** With positive edges, the tree weight is positive unless the tree is empty. */
  lemma {:induction false} TreeWeightPositive(mst: seq<Edge>)
    requires forall k :: 0 <= k < |mst| ==> mst[k].weight > 0.0
    ensures TreeWeight(mst) >= 0.0
    ensures |mst| > 0 ==> TreeWeight(mst) > 0.0
  {
    if mst != [] {
      TreeWeightPositive(mst[..|mst| - 1]);
    }
  }

  // ---------------------------------------------------------- adjacency

  /** Edge e joins u and v, in either direction. */
  predicate Joins(e: Edge, u: nat, v: nat) {
    (e.from == u && e.to == v) || (e.to == u && e.from == v)
  }

  /** Every entry of every adjacency list names a point. */
  predicate AdjBounded(adj: seq<seq<nat>>) {
    forall u, m :: 0 <= u < |adj| && 0 <= m < |adj[u]| ==> adj[u][m] < |adj|
  }

  /** The adjacency lists after `forEach(edge => { adj[from].push(to); adj[to].push(from) })`. */
  function Adjacency(mst: seq<Edge>, n: nat): (adj: seq<seq<nat>>)
    requires EdgesBounded(mst, n)
    ensures |adj| == n
  {
    if mst == [] then seq(n, _ => [])
    else
      var a := Adjacency(mst[..|mst| - 1], n);
      var e := mst[|mst| - 1];
      var a1 := a[e.from := a[e.from] + [e.to]];
      a1[e.to := a1[e.to] + [e.from]]
  }

  /** v is on u's list exactly when some tree edge joins them. */
  lemma {:induction false} AdjacencyJoins(mst: seq<Edge>, n: nat)
    requires EdgesBounded(mst, n)
    ensures AdjBounded(Adjacency(mst, n))
    ensures forall u: nat, v: nat :: u < n ==>
      (v in Adjacency(mst, n)[u] <==> exists k :: 0 <= k < |mst| && Joins(mst[k], u, v))
  {
    if mst != [] {
      var init := mst[..|mst| - 1];
      assert EdgesBounded(init, n);
      AdjacencyJoins(init, n);
      forall u: nat, v: nat | u < n
        ensures v in Adjacency(mst, n)[u] <==> exists k :: 0 <= k < |mst| && Joins(mst[k], u, v)
      {
        AdjacencyLast(mst, n, u, v);
        JoinsSplit(mst, init, u, v);
      }
      forall u, m | 0 <= u < n && 0 <= m < |Adjacency(mst, n)[u]| ensures Adjacency(mst, n)[u][m] < n {
        AdjacencyLast(mst, n, u, Adjacency(mst, n)[u][m]);
      }
    }
  }

  /** The last edge adds each of its ends to the other's list and changes nothing else. */
  lemma AdjacencyLast(mst: seq<Edge>, n: nat, u: nat, v: nat)
    requires EdgesBounded(mst, n) && mst != [] && u < n
    ensures EdgesBounded(mst[..|mst| - 1], n)
    ensures v in Adjacency(mst, n)[u] <==> v in Adjacency(mst[..|mst| - 1], n)[u] || Joins(mst[|mst| - 1], u, v)
  {
  }

  /** Some edge of `mst` joins u and v exactly when one of `init`, the edges before the last, does or the last does. */
  lemma JoinsSplit(mst: seq<Edge>, init: seq<Edge>, u: nat, v: nat)
    requires mst != [] && init == mst[..|mst| - 1]
    ensures (exists k :: 0 <= k < |mst| && Joins(mst[k], u, v)) <==>
      (exists k :: 0 <= k < |init| && Joins(init[k], u, v)) || Joins(mst[|mst| - 1], u, v)
  {
    if exists k :: 0 <= k < |mst| && Joins(mst[k], u, v) {
      var k :| 0 <= k < |mst| && Joins(mst[k], u, v);
      if k < |init| {
        assert Joins(init[k], u, v);
      }
    }
    if exists k :: 0 <= k < |init| && Joins(init[k], u, v) {
      var k :| 0 <= k < |init| && Joins(init[k], u, v);
      assert Joins(mst[k], u, v);
    }
  }

  /** The adjacency build of `mstToPath`: n empty lists, then both ends of every edge. */
  method BuildAdjacency(mst: seq<Edge>, n: nat) returns (adj: seq<seq<nat>>)
    requires EdgesBounded(mst, n)
    ensures adj == Adjacency(mst, n)
  {
    var lists := new seq<nat>[n](_ => []);
    assert lists[..] == Adjacency(mst[..0], n);
    for k := 0 to |mst|
      invariant lists[..] == Adjacency(mst[..k], n)
    {
      var e := mst[k];
      assert mst[..k + 1][..k] == mst[..k];
      lists[e.from] := lists[e.from] + [e.to];
      lists[e.to] := lists[e.to] + [e.from];
    }
    assert mst[..|mst|] == mst;
    adj := lists[..];
  }

  // ---------------------------------------------------------- walks

  /** A walk along the adjacency lists. */
  ghost predicate IsWalk(adj: seq<seq<nat>>, w: seq<nat>) {
    |w| >= 1 && Bounded(w, |adj|) && forall i :: 0 <= i < |w| - 1 ==> w[i + 1] in adj[w[i]]
  }

  /** Some walk leads from a to b. */
  ghost predicate Reaches(adj: seq<seq<nat>>, a: nat, b: nat) {
    exists w :: IsWalk(adj, w) && w[0] == a && w[|w| - 1] == b
  }

  lemma ReachesSelf(adj: seq<seq<nat>>, a: nat)
    requires a < |adj|
    ensures Reaches(adj, a, a)
  {
    assert IsWalk(adj, [a]);
  }

  /** One step to a neighbour, then on. */
  lemma ReachesStep(adj: seq<seq<nat>>, a: nat, b: nat, c: nat)
    requires a < |adj| && b in adj[a] && Reaches(adj, b, c)
    ensures Reaches(adj, a, c)
  {
    var w :| IsWalk(adj, w) && w[0] == b && w[|w| - 1] == c;
    var w' := [a] + w;
    assert forall i :: 0 < i < |w'| ==> w'[i] == w[i - 1];
    assert IsWalk(adj, w');
  }

  /** On, then one step to a neighbour. */
  lemma ReachesExtend(adj: seq<seq<nat>>, a: nat, b: nat, c: nat)
    requires Reaches(adj, a, b) && b < |adj| && c in adj[b] && AdjBounded(adj)
    ensures Reaches(adj, a, c)
  {
    var w :| IsWalk(adj, w) && w[0] == a && w[|w| - 1] == b;
    var w' := w + [c];
    assert c < |adj| by {
      var m :| 0 <= m < |adj[b]| && adj[b][m] == c;
    }
    assert forall i :: 0 <= i < |w| ==> w'[i] == w[i];
    assert IsWalk(adj, w');
  }

  /** A set that holds a and every neighbour of its members holds every point a walk from a visits. */
  lemma {:induction false} ClosedHoldsWalk(adj: seq<seq<nat>>, s: set<nat>, w: seq<nat>)
    requires IsWalk(adj, w) && w[0] in s
    requires forall u, m :: u in s && 0 <= u < |adj| && 0 <= m < |adj[u]| ==> adj[u][m] in s
    ensures w[|w| - 1] in s
    decreases |w|
  {
    if |w| > 1 {
      var init := w[..|w| - 1];
      assert IsWalk(adj, init);
      ClosedHoldsWalk(adj, s, init);
      var u := w[|w| - 2];
      var m :| 0 <= m < |adj[u]| && adj[u][m] == w[|w| - 1];
    }
  }

  // ---------------------------------------------------------- depth-first order

  /** The point at position i of `path` is a neighbour of a point listed before it. */
  ghost predicate ParentBefore(adj: seq<seq<nat>>, path: seq<nat>, i: nat)
    requires i < |path| && Bounded(path, |adj|)
  {
    exists j :: 0 <= j < i && path[i] in adj[path[j]]
  }

  lemma ParentBeforeExtends(adj: seq<seq<nat>>, p: seq<nat>, q: seq<nat>, i: nat)
    requires Bounded(p, |adj|) && Bounded(q, |adj|) && |p| <= |q| && q[..|p|] == p
    requires i < |p| && ParentBefore(adj, p, i)
    ensures ParentBefore(adj, q, i)
  {
    var j :| 0 <= j < i && p[i] in adj[p[j]];
    assert q[j] == p[j] && q[i] == p[i];
  }

  /** Recording a point the path does not hold keeps it in range and free of repeats. */
  lemma RecordFresh(path: seq<nat>, node: nat, n: nat)
    requires Bounded(path, n) && Distinct(path) && node < n && node !in path
    ensures Bounded(path + [node], n) && Distinct(path + [node]) && |path| < n
  {
    DistinctLength(path + [node], n);
  }

  /**
   * The path after `dfs(node)`, on a run that has recorded `path` so far
   * (the visited points are exactly those of `path`): `node` is recorded,
   * then its neighbours are visited in list order.
   */
  function DfsFrom(adj: seq<seq<nat>>, path: seq<nat>, node: nat): (r: seq<nat>)
    requires AdjBounded(adj) && Bounded(path, |adj|) && Distinct(path)
    requires node < |adj| && node !in path
    ensures Bounded(r, |adj|) && Distinct(r) && |r| <= |adj|
    ensures |path| < |r| && r[..|path|] == path && r[|path|] == node
    decreases |adj| - |path|, 0, 0
  {
    RecordFresh(path, node, |adj|);
    DfsList(adj, path + [node], node, 0)
  }

  /**
   * `adj[node].forEach(...)` from position k on: each neighbour not yet on
   * `path` is visited by `dfs`, each one already on it is skipped.
   */
  function DfsList(adj: seq<seq<nat>>, path: seq<nat>, node: nat, k: nat): (r: seq<nat>)
    requires AdjBounded(adj) && Bounded(path, |adj|) && Distinct(path)
    requires node < |adj| && k <= |adj[node]|
    ensures Bounded(r, |adj|) && Distinct(r) && |r| <= |adj|
    ensures |path| <= |r| && r[..|path|] == path
    decreases |adj| - |path|, 1, |adj[node]| - k
  {
    DistinctLength(path, |adj|);
    if k == |adj[node]| then path
    else if adj[node][k] in path then DfsList(adj, path, node, k + 1)
    else
      var p := DfsFrom(adj, path, adj[node][k]);
      var r := DfsList(adj, p, node, k + 1);
      assert r[..|path|] == p[..|path|];
      r
  }

  /** One neighbour of the loop: the rest of it runs from the path that neighbour leaves. */
  lemma DfsListNext(adj: seq<seq<nat>>, path: seq<nat>, node: nat, k: nat, next: seq<nat>)
    requires AdjBounded(adj) && Bounded(path, |adj|) && Distinct(path)
    requires node < |adj| && k < |adj[node]|
    requires next == if adj[node][k] in path then path else DfsFrom(adj, path, adj[node][k])
    ensures Bounded(next, |adj|) && Distinct(next)
    ensures DfsList(adj, path, node, k) == DfsList(adj, next, node, k + 1)
  {
  }

  /** The order `dfs(0)` records on fresh state. */
  function DfsOrder(adj: seq<seq<nat>>): (r: seq<nat>)
    requires AdjBounded(adj) && |adj| > 0
    ensures Bounded(r, |adj|) && Distinct(r) && 1 <= |r| <= |adj| && r[0] == 0
  {
    DfsFrom(adj, [], 0)
  }

  /**
   * Properties of a depth-first order: it starts at 0, repeats no point,
   * lists exactly the points reachable from 0, and each later point is a
   * neighbour of one listed before it.
   */
  ghost predicate IsDfsOrder(adj: seq<seq<nat>>, order: seq<nat>) {
    && |order| >= 1 && order[0] == 0 && Bounded(order, |adj|) && Distinct(order)
    && (forall j: nat :: j < |adj| ==> (j in order <==> Reaches(adj, 0, j)))
    && (forall i :: 1 <= i < |order| ==> ParentBefore(adj, order, i))
  }

  /** The points r[lo..hi] are reachable from `origin`, and every neighbour of each is in `r`. */
  ghost predicate Rooted(adj: seq<seq<nat>>, origin: nat, r: seq<nat>, lo: nat, hi: nat)
    requires Bounded(r, |adj|) && hi <= |r|
  {
    && (forall i :: lo <= i < hi ==> Reaches(adj, origin, r[i]))
    && (forall i, m :: lo <= i < hi && 0 <= m < |adj[r[i]]| ==> adj[r[i]][m] in r)
  }

  /** Each of the points r[lo..hi] is a neighbour of a point listed before it. */
  ghost predicate Parented(adj: seq<seq<nat>>, r: seq<nat>, lo: nat, hi: nat)
    requires Bounded(r, |adj|) && hi <= |r|
  {
    forall i :: lo <= i < hi ==> ParentBefore(adj, r, i)
  }

  /**
   * What `dfs(node)` records after `path`: points reachable from `node`, each
   * after the first a neighbour of an earlier point, and every neighbour of
   * each of them recorded too.
   */
  lemma {:induction false} DfsFromFacts(adj: seq<seq<nat>>, path: seq<nat>, node: nat)
    requires AdjBounded(adj) && Bounded(path, |adj|) && Distinct(path)
    requires node < |adj| && node !in path
    ensures var r := DfsFrom(adj, path, node);
      Rooted(adj, node, r, |path|, |r|) && Parented(adj, r, |path| + 1, |r|)
    decreases |adj| - |path|, 0, 0
  {
    RecordFresh(path, node, |adj|);
    var q := path + [node];
    var r := DfsList(adj, q, node, 0);
    assert r == DfsFrom(adj, path, node);
    DfsListFacts(adj, q, node, 0);
    ReachesSelf(adj, node);
    assert r[|path|] == node;
    assert Rooted(adj, node, r, |path|, |q|);
    RootedJoin(adj, node, r, |path|, |q|, |r|);
  }

  /**
   * What the neighbour loop of `dfs(node)` records after `path` from
   * position k on, when `node` is recorded and its neighbours before k are too.
   */
  lemma {:induction false} DfsListFacts(adj: seq<seq<nat>>, path: seq<nat>, node: nat, k: nat)
    requires AdjBounded(adj) && Bounded(path, |adj|) && Distinct(path)
    requires node < |adj| && k <= |adj[node]| && node in path
    requires forall m :: 0 <= m < k ==> adj[node][m] in path
    ensures var r := DfsList(adj, path, node, k);
      && Rooted(adj, node, r, |path|, |r|) && Parented(adj, r, |path|, |r|)
      && (forall m :: 0 <= m < |adj[node]| ==> adj[node][m] in r)
    decreases |adj| - |path|, 1, |adj[node]| - k
  {
    DistinctLength(path, |adj|);
    if k < |adj[node]| {
      var nb := adj[node][k];
      if nb in path {
        DfsListFacts(adj, path, node, k + 1);
      } else {
        var p := DfsFrom(adj, path, nb);
        DfsFromFacts(adj, path, nb);
        PrefixKeeps(path, p);
        DfsListFacts(adj, p, node, k + 1);
        var r := DfsList(adj, p, node, k + 1);
        assert r == DfsList(adj, path, node, k);
        NestedCallFacts(adj, path, node, nb, p, r);
        RootedJoin(adj, node, r, |path|, |p|, |r|);
        ParentedJoin(adj, r, |path|, |p|, |r|);
      }
    }
  }

  lemma RootedJoin(adj: seq<seq<nat>>, origin: nat, r: seq<nat>, lo: nat, mid: nat, hi: nat)
    requires Bounded(r, |adj|) && lo <= mid <= hi <= |r|
    requires Rooted(adj, origin, r, lo, mid) && Rooted(adj, origin, r, mid, hi)
    ensures Rooted(adj, origin, r, lo, hi)
  {
  }

  lemma ParentedJoin(adj: seq<seq<nat>>, r: seq<nat>, lo: nat, mid: nat, hi: nat)
    requires Bounded(r, |adj|) && lo <= mid <= hi <= |r|
    requires Parented(adj, r, lo, mid) && Parented(adj, r, mid, hi)
    ensures Parented(adj, r, lo, hi)
  {
  }

  /**
   * The points a nested `dfs(nb)` recorded after `path` (giving `p`), where
   * nb is a neighbour of `node`, keep their facts once the path has grown on
   * to `r`: they are reachable from `node`, each has an earlier neighbour,
   * and their neighbours are recorded.
   */
  lemma NestedCallFacts(adj: seq<seq<nat>>, path: seq<nat>, node: nat, nb: nat, p: seq<nat>, r: seq<nat>)
    requires AdjBounded(adj) && Bounded(p, |adj|) && Bounded(r, |adj|) && node < |adj|
    requires node in path && nb in adj[node]
    requires |path| < |p| <= |r| && p[..|path|] == path && r[..|p|] == p && p[|path|] == nb
    requires Rooted(adj, nb, p, |path|, |p|) && Parented(adj, p, |path| + 1, |p|)
    ensures Rooted(adj, node, r, |path|, |p|) && Parented(adj, r, |path|, |p|)
  {
    PrefixKeeps(p, r);
    var j :| 0 <= j < |path| && path[j] == node;
    assert p[j] == node && r[j] == node;
    forall i | |path| <= i < |p|
      ensures Reaches(adj, node, r[i]) && ParentBefore(adj, r, i)
    {
      assert r[i] == p[i];
      ReachesStep(adj, node, nb, p[i]);
      if i == |path| {
        assert r[i] in adj[r[j]];
      } else {
        ParentBeforeExtends(adj, p, r, i);
      }
    }
    forall i, m | |path| <= i < |p| && 0 <= m < |adj[r[i]]| ensures adj[r[i]][m] in r {
      assert r[i] == p[i];
    }
  }

  /** Extending a path that extends `p` extends `p`. */
  lemma PrefixTrans(p: seq<nat>, q: seq<nat>, r: seq<nat>)
    requires |p| <= |q| && q[..|p|] == p && |q| <= |r| && r[..|q|] == q
    ensures r[..|p|] == p
  {
    assert r[..|p|] == r[..|q|][..|p|];
  }

  /** Extending a path leaves no more points unrecorded. */
  lemma PrefixShrinks(n: nat, p: seq<nat>, q: seq<nat>)
    requires |p| <= |q| && q[..|p|] == p
    ensures Unrecorded(n, q) <= Unrecorded(n, p)
  {
    PrefixKeeps(p, q);
  }

  /** A path that extends `p` holds every point of `p`. */
  lemma PrefixKeeps(p: seq<nat>, q: seq<nat>)
    requires |p| <= |q| && q[..|p|] == p
    ensures forall x :: x in p ==> x in q
  {
    forall x | x in p ensures x in q {
      var i :| 0 <= i < |p| && p[i] == x;
      assert q[i] == x;
    }
  }

  /** `dfs(0)` records a depth-first order. */
  lemma DfsOrderIsDfs(adj: seq<seq<nat>>)
    requires AdjBounded(adj) && |adj| > 0
    ensures IsDfsOrder(adj, DfsOrder(adj))
  {
    var o := DfsOrder(adj);
    assert o == DfsFrom(adj, [], 0);
    DfsFromFacts(adj, [], 0);
    assert Rooted(adj, 0, o, 0, |o|) && Parented(adj, o, 1, |o|);
    assert forall i :: 0 <= i < |o| ==> Reaches(adj, 0, o[i]);
    assert forall i :: 0 < i < |o| ==> ParentBefore(adj, o, i);
    assert forall i, m :: 0 <= i < |o| && 0 <= m < |adj[o[i]]| ==> adj[o[i]][m] in o;
    var s := set x | x in o;
    forall j: nat | j < |adj| ensures j in o <==> Reaches(adj, 0, j) {
      if j in o {
        var i :| 0 <= i < |o| && o[i] == j;
      }
      if Reaches(adj, 0, j) {
        var w :| IsWalk(adj, w) && w[0] == 0 && w[|w| - 1] == j;
        forall u, m | u in s && 0 <= u < |adj| && 0 <= m < |adj[u]| ensures adj[u][m] in s {
          var i :| 0 <= i < |o| && o[i] == u;
        }
        ClosedHoldsWalk(adj, s, w);
      }
    }
  }

  /** Four points: 0 is joined to 1 and 2, and 1 to 3. */
  const ExampleLists: seq<seq<nat>> := [[1, 2], [0, 3], [0], [1]]

  lemma ExampleVisitThree()
    ensures AdjBounded(ExampleLists) && DfsFrom(ExampleLists, [0, 1], 3) == [0, 1, 3]
  {
    assert [0, 1] + [3] == [0, 1, 3];
    assert DfsList(ExampleLists, [0, 1, 3], 3, 1) == [0, 1, 3];
  }

  lemma ExampleVisitOne()
    ensures AdjBounded(ExampleLists) && DfsFrom(ExampleLists, [0], 1) == [0, 1, 3]
  {
    ExampleVisitThree();
    assert [0] + [1] == [0, 1];
    assert DfsList(ExampleLists, [0, 1, 3], 1, 2) == [0, 1, 3];
    assert DfsList(ExampleLists, [0, 1], 1, 1) == [0, 1, 3];
  }

  lemma ExampleVisitTwo()
    ensures AdjBounded(ExampleLists) && DfsFrom(ExampleLists, [0, 1, 3], 2) == [0, 1, 3, 2]
  {
    assert [0, 1, 3] + [2] == [0, 1, 3, 2];
    assert DfsList(ExampleLists, [0, 1, 3, 2], 2, 1) == [0, 1, 3, 2];
  }

  /**
   * The order is the recursion's pre-order, not just any connected order:
   * `dfs(0)` goes down from 1 to 3 before it turns to 2, where a
   * breadth-first walk would give [0, 1, 2, 3].
   */
  lemma DfsPreOrderExample()
    ensures AdjBounded(ExampleLists) && DfsOrder(ExampleLists) == [0, 1, 3, 2]
  {
    ExampleVisitOne();
    ExampleVisitTwo();
    assert [] + [0] == [0];
    assert DfsList(ExampleLists, [0, 1, 3, 2], 0, 2) == [0, 1, 3, 2];
    assert DfsList(ExampleLists, [0, 1, 3], 0, 1) == [0, 1, 3, 2];
    assert DfsList(ExampleLists, [0], 0, 0) == [0, 1, 3, 2];
  }

  /** The points below n that `path` does not hold. */
  ghost function Unrecorded(n: nat, path: seq<nat>): set<nat> {
    set j: nat | j < n && j !in path
  }

  /** A path that extends `p + [x]`, for a point x not on `p`, leaves fewer points unrecorded than `p`. */
  lemma FewerUnrecorded(n: nat, p: seq<nat>, x: nat, q: seq<nat>)
    requires |p| < |q| && q[..|p| + 1] == p + [x] && x < n && x !in p
    ensures Unrecorded(n, q) < Unrecorded(n, p)
  {
    PrefixKeeps(p + [x], q);
    assert x in Unrecorded(n, p) && x !in Unrecorded(n, q);
  }

  /** The `visited` flags that go with `path`: a point is marked exactly when it is on the path. */
  function Marks(n: nat, path: seq<nat>): (m: seq<bool>)
    ensures |m| == n && forall j :: 0 <= j < n ==> m[j] == (j in path)
  {
    seq(n, j => j in path)
  }

  /** Marking x as visited goes with recording it. */
  lemma MarkOne(n: nat, path: seq<nat>, x: nat)
    requires x < n
    ensures Marks(n, path + [x]) == Marks(n, path)[x := true]
  {
  }

  /** The state the recursive `dfs` closure shares: the adjacency lists, `visited` and `path`. */
  class DepthFirst {
    const adj: seq<seq<nat>>
    const visited: array<bool>
    var path: seq<nat>

    /** `path` lists exactly the visited points, each once. */
    ghost predicate Valid()
      reads this, visited
    {
      && visited.Length == |adj| && AdjBounded(adj)
      && Bounded(path, |adj|) && Distinct(path)
      && visited[..] == Marks(|adj|, path)
    }

    /** The points not on the path; each call of `Visit` records one, so it shrinks. */
    ghost function Unvisited(): set<nat>
      reads this
    {
      Unrecorded(|adj|, path)
    }

    constructor (adj: seq<seq<nat>>)
      requires AdjBounded(adj)
      ensures Valid() && this.adj == adj && path == [] && fresh(visited)
    {
      this.adj := adj;
      visited := new bool[|adj|](_ => false);
      path := [];
      new;
      assert visited[..] == Marks(|adj|, []);
    }

    /**
     * `dfs(node)`: mark and record `node`, then visit each unvisited
     * neighbour in list order; the path grows exactly as `DfsFrom` says.
     */
    method Visit(node: nat)
      requires Valid() && node < |adj| && node !in path
      modifies this, visited
      ensures Valid() && path == DfsFrom(adj, old(path), node)
      decreases Unvisited(), 0
    {
      MarkOne(|adj|, path, node);
      visited[node] := true;
      FewerUnrecorded(|adj|, path, node, path + [node]);
      path := path + [node];
      Neighbors(node);
    }

    /** The neighbour loop of `dfs(node)`, once `node` is recorded. */
    method Neighbors(node: nat)
      requires Valid() && node < |adj|
      modifies this, visited
      ensures Valid() && path == DfsList(adj, old(path), node, 0)
      decreases Unvisited(), 2
    {
      ghost var goal := DfsList(adj, path, node, 0);
      for k := 0 to |adj[node]|
        invariant Valid() && |old(path)| <= |path| && path[..|old(path)|] == old(path)
        invariant DfsList(adj, path, node, k) == goal
      {
        ghost var before := path;
        PrefixShrinks(|adj|, old(path), before);
        Step(node, k);
        PrefixTrans(old(path), before, path);
        DfsListNext(adj, before, node, k, path);
      }
    }

    /** One turn of the neighbour loop: visit `adj[node][k]` unless it is already marked. */
    method Step(node: nat, k: nat)
      requires Valid() && node < |adj| && k < |adj[node]|
      modifies this, visited
      ensures Valid() && |old(path)| <= |path| && path[..|old(path)|] == old(path)
      ensures path == if adj[node][k] in old(path) then old(path)
        else DfsFrom(adj, old(path), adj[node][k])
      decreases Unvisited(), 1
    {
      var neighbor := adj[node][k];
      assert visited[neighbor] == (neighbor in path) by {
        assert visited[..][neighbor] == Marks(|adj|, path)[neighbor];
      }
      if !visited[neighbor] {
        Visit(neighbor);
      }
    }
  }

  /** `dfs(0)` over fresh state, as `mstToPath` runs it. */
  method DepthFirstOrder(adj: seq<seq<nat>>) returns (order: seq<nat>)
    requires AdjBounded(adj) && |adj| > 0
    ensures order == DfsOrder(adj) && IsDfsOrder(adj, order)
  {
    var t := new DepthFirst(adj);
    t.Visit(0);
    order := t.path;
    DfsOrderIsDfs(adj);
  }

  /** `mstToPath`: the points in the depth-first order of the tree's adjacency lists. */
  method MstToPath(mst: seq<Edge>, points: seq<Bin>) returns (path: seq<Bin>)
    requires EdgesBounded(mst, |points|) && |points| > 0
    ensures AdjBounded(Adjacency(mst, |points|))
    ensures path == Gather(points, DfsOrder(Adjacency(mst, |points|)))
  {
    var adj := BuildAdjacency(mst, |points|);
    AdjacencyJoins(mst, |points|);
    var order := DepthFirstOrder(adj);
    path := Gather(points, order);
  }

  // ---------------------------------------------------------- tree reachability

  /** A walk along the tree's adjacency lists only steps along tree edges. */
  lemma {:induction false} TreeWalkStaysReached(mst: seq<Edge>, n: nat, w: seq<nat>)
    requires EdgesBounded(mst, n) && GrowsFromRoot(mst) && n > 0
    requires IsWalk(Adjacency(mst, n), w) && w[0] == 0
    ensures w[|w| - 1] in Reached(mst)
  {
    var adj := Adjacency(mst, n);
    AdjacencyJoins(mst, n);
    ReachedHas(mst);
    forall u, m | u in Reached(mst) && 0 <= u < |adj| && 0 <= m < |adj[u]| ensures adj[u][m] in Reached(mst) {
      var v := adj[u][m];
      assert v in adj[u];
      var k :| 0 <= k < |mst| && Joins(mst[k], u, v);
      EdgeEndsReached(mst, k);
    }
    ClosedHoldsWalk(adj, Reached(mst), w);
  }

  /** Both ends of every edge of a tree grown from the root are reached. */
  lemma EdgeEndsReached(mst: seq<Edge>, k: nat)
    requires GrowsFromRoot(mst) && k < |mst|
    ensures mst[k].from in Reached(mst) && mst[k].to in Reached(mst)
  {
    ReachedHas(mst);
    ReachedPrefix(mst, k);
  }

  /** The points reached by a prefix of the edges are reached by all of them. */
  lemma {:induction false} ReachedPrefix(mst: seq<Edge>, k: nat)
    requires k <= |mst|
    ensures Reached(mst[..k]) <= Reached(mst)
    decreases |mst| - k
  {
    if k < |mst| {
      ReachedPrefix(mst, k + 1);
      assert mst[..k + 1][..k] == mst[..k];
    } else {
      assert mst[..k] == mst;
    }
  }

  /** Every point the tree reaches can be walked to from 0 along tree edges. */
  lemma {:induction false} ReachedWalkable(mst: seq<Edge>, n: nat, j: nat)
    requires EdgesBounded(mst, n) && GrowsFromRoot(mst) && n > 0 && j in Reached(mst)
    ensures Reaches(Adjacency(mst, n), 0, j)
    decreases |mst|
  {
    AdjacencyJoins(mst, n);
    if mst == [] {
      ReachesSelf(Adjacency(mst, n), 0);
      return;
    }
    var init := mst[..|mst| - 1];
    var e := mst[|mst| - 1];
    assert forall k :: 0 <= k < |init| ==> init[..k] == mst[..k];
    assert EdgesBounded(init, n) && GrowsFromRoot(init);
    if j in Reached(init) {
      ReachedWalkable(init, n, j);
      WalkLifts(init, mst, n, j);
    } else {
      assert j == e.to;
      ReachedWalkable(init, n, e.from);
      WalkLifts(init, mst, n, e.from);
      assert Joins(mst[|mst| - 1], e.from, j);
      ReachesExtend(Adjacency(mst, n), 0, e.from, j);
    }
  }

  /** A walk over the first edges is a walk over all of them. */
  lemma WalkLifts(init: seq<Edge>, mst: seq<Edge>, n: nat, j: nat)
    requires |init| < |mst| && init == mst[..|init|] && EdgesBounded(mst, n)
    requires Reaches(Adjacency(init, n), 0, j)
    ensures Reaches(Adjacency(mst, n), 0, j)
  {
    AdjacencyJoins(init, n);
    AdjacencyJoins(mst, n);
    var w :| IsWalk(Adjacency(init, n), w) && w[0] == 0 && w[|w| - 1] == j;
    forall i | 0 <= i < |w| - 1 ensures w[i + 1] in Adjacency(mst, n)[w[i]] {
      var k :| 0 <= k < |init| && Joins(init[k], w[i], w[i + 1]);
      assert mst[k] == init[k];
    }
    assert IsWalk(Adjacency(mst, n), w);
  }

  /** Reachable along the tree from 0 exactly when the tree reaches the point. */
  lemma TreeReach(mst: seq<Edge>, n: nat)
    requires EdgesBounded(mst, n) && GrowsFromRoot(mst) && n > 0
    ensures forall j: nat :: j < n ==> (Reaches(Adjacency(mst, n), 0, j) <==> j in Reached(mst))
  {
    forall j: nat | j < n ensures Reaches(Adjacency(mst, n), 0, j) <==> j in Reached(mst) {
      if Reaches(Adjacency(mst, n), 0, j) {
        var w :| IsWalk(Adjacency(mst, n), w) && w[0] == 0 && w[|w| - 1] == j;
        TreeWalkStaysReached(mst, n, w);
      }
      if j in Reached(mst) {
        ReachedWalkable(mst, n, j);
      }
    }
  }

  // ---------------------------------------------------------- the solver

  /** What `solve` answers: the depth-first order of the tree, the tree weight, and the weight of every bin. */
  ghost predicate PrimResponse(request: RouteRequest, h: GeoDistance, response: RouteResponse) {
    var points := Waypoints(request.startPoint, request.bins, request.endPoint);
    var d := Matrix(points, h);
    exists mst: seq<Edge> ::
      && IsPrimTree(d, mst) && EdgesBounded(mst, |points|) && AdjBounded(Adjacency(mst, |points|))
      && response.path == Gather(points, DfsOrder(Adjacency(mst, |points|)))
      && response.totalDistance == TreeWeight(mst)
      && response.capacityUsed == TotalWeight(request.bins)
  }

  method Solve(request: RouteRequest, h: GeoDistance) returns (response: RouteResponse)
    ensures response.executionTime == 0
    ensures PrimResponse(request, h, response)
  {
    var allPoints := Waypoints(request.startPoint, request.bins, request.endPoint);
    var distances := CalculateDistanceMatrix(allPoints, h);
    var mst := PrimTree(distances);
    PrimTreeShape(distances, mst);
    var path := MstToPath(mst, allPoints);
    var totalDistance := TreeWeight(mst);
    var capacityUsed := TotalWeight(request.bins);
    response := RouteResponse(path, totalDistance, capacityUsed, 0);
  }

  /**
   * The spanning-tree solver's answer starts at the start point, lists no
   * waypoint more often than the request holds it, and its distance is the
   * tree weight, never negative. When no two waypoints coincide, it visits
   * the start, every bin and the end, and its distance is positive.
   */
  lemma PrimResponseProperties(request: RouteRequest, h: GeoDistance, response: RouteResponse)
    requires PrimResponse(request, h, response)
    ensures response.path[0] == StartPoint(request.startPoint)
    ensures 1 <= |response.path| <= |request.bins| + 2
    ensures response.totalDistance >= 0.0
    ensures forall b :: b in response.path ==>
      b == StartPoint(request.startPoint) || b == EndPoint(request.endPoint) || b in request.bins
    ensures multiset(response.path) <= multiset(Waypoints(request.startPoint, request.bins, request.endPoint))
    ensures PositiveOffDiagonal(Matrix(Waypoints(request.startPoint, request.bins, request.endPoint), h)) ==>
      && |response.path| == |request.bins| + 2
      && (forall b :: b in request.bins ==> b in response.path)
      && EndPoint(request.endPoint) in response.path
      && response.totalDistance > 0.0
  {
    var points := Waypoints(request.startPoint, request.bins, request.endPoint);
    var d := Matrix(points, h);
    var mst: seq<Edge> :|
      && IsPrimTree(d, mst) && EdgesBounded(mst, |points|) && AdjBounded(Adjacency(mst, |points|))
      && response.path == Gather(points, DfsOrder(Adjacency(mst, |points|)))
      && response.totalDistance == TreeWeight(mst);
    var order := DfsOrder(Adjacency(mst, |points|));
    DfsOrderIsDfs(Adjacency(mst, |points|));
    PrimTreeShape(d, mst);
    TreeWeightPositive(mst);
    DistinctLength(order, |points|);
    PathFromWaypoints(points, request.startPoint, request.bins, request.endPoint, order);
    GatherDistinct(points, order);
    if PositiveOffDiagonal(d) {
      PrimSpans(d, mst);
      SpanningOrderVisitsAll(points, request.startPoint, request.bins, request.endPoint, mst, order);
    }
  }

  /** A depth-first order of a tree that reaches every point shows every bin and the end point. */
  lemma SpanningOrderVisitsAll(points: seq<Bin>, start: Coordinates, middle: seq<Bin>, end: Coordinates,
                               mst: seq<Edge>, order: seq<nat>)
    requires points == Waypoints(start, middle, end)
    requires EdgesBounded(mst, |points|) && GrowsFromRoot(mst)
    requires forall j: nat :: j < |points| ==> j in Reached(mst)
    requires IsDfsOrder(Adjacency(mst, |points|), order) && Bounded(order, |points|)
    ensures |Gather(points, order)| == |middle| + 2
    ensures forall b :: b in middle ==> b in Gather(points, order)
    ensures EndPoint(end) in Gather(points, order)
  {
    TreeReach(mst, |points|);
    DfsOrderCovers(mst, |points|, order);
    CoveringRouteShowsAll(points, start, middle, end, order);
  }

  /** A depth-first order of a tree that reaches every point holds every point. */
  lemma DfsOrderCovers(mst: seq<Edge>, n: nat, order: seq<nat>)
    requires EdgesBounded(mst, n) && n > 0
    requires forall j: nat :: j < n ==> j in Reached(mst)
    requires forall j: nat :: j < n ==> (Reaches(Adjacency(mst, n), 0, j) <==> j in Reached(mst))
    requires IsDfsOrder(Adjacency(mst, n), order)
    ensures Distinct(order) && Bounded(order, n) && forall j: nat :: j < n ==> j in order
  {
  }

  /** Any index path over `[start, ...bins, end]` shows only the start, the end and bins. */
  lemma PathFromWaypoints(points: seq<Bin>, start: Coordinates, middle: seq<Bin>, end: Coordinates, order: seq<nat>)
    requires points == Waypoints(start, middle, end) && Bounded(order, |points|)
    ensures forall b :: b in Gather(points, order) ==> b == StartPoint(start) || b == EndPoint(end) || b in middle
  {
    forall b | b in Gather(points, order) ensures b == StartPoint(start) || b == EndPoint(end) || b in middle {
      var m :| 0 <= m < |order| && Gather(points, order)[m] == b;
      var p := order[m];
      if 0 < p < |points| - 1 {
        assert b == middle[p - 1];
      }
    }
  }

  /** Two runs on the same request give the same answer, path included. */
  lemma PrimDeterministic(request: RouteRequest, h: GeoDistance, r1: RouteResponse, r2: RouteResponse)
    requires PrimResponse(request, h, r1) && PrimResponse(request, h, r2)
    ensures r1.path == r2.path && r1.totalDistance == r2.totalDistance && r1.capacityUsed == r2.capacityUsed
  {
    var points := Waypoints(request.startPoint, request.bins, request.endPoint);
    var d := Matrix(points, h);
    var m1: seq<Edge> :|
      && IsPrimTree(d, m1) && EdgesBounded(m1, |points|) && AdjBounded(Adjacency(m1, |points|))
      && r1.path == Gather(points, DfsOrder(Adjacency(m1, |points|))) && r1.totalDistance == TreeWeight(m1);
    var m2: seq<Edge> :|
      && IsPrimTree(d, m2) && EdgesBounded(m2, |points|) && AdjBounded(Adjacency(m2, |points|))
      && r2.path == Gather(points, DfsOrder(Adjacency(m2, |points|))) && r2.totalDistance == TreeWeight(m2);
    PrimTreeUnique(d, m1, m2);
  }
}
