/**
 * The shortest-path solver: array-based Dijkstra from the start point to the
 * end point over the edges of positive length, then the path read back along
 * the predecessor pointers.
 */
module Dijkstra {
  import opened SeqFacts
  import opened RouteTypes
  import opened Distances

  /** A tentative distance: a number, or JavaScript's `Infinity`. */
  datatype Dist = Fin(value: real) | Inf

  /** JavaScript's `<` where `Infinity` exceeds every number and not itself. */
  predicate Less(a: Dist, b: Dist) {
    if a.Inf? then false else if b.Inf? then true else a.value < b.value
  }

  /** `a <= b` in the same order. */
  predicate AtMost(a: Dist, b: Dist) {
    !Less(b, a)
  }

  /** `a + w`, with `Infinity + w == Infinity`. */
  function Plus(a: Dist, w: real): Dist {
    if a.Inf? then Inf else Fin(a.value + w)
  }

  // ---------------------------------------------------------- walks

  /** A walk that only steps along edges of positive length. */
  predicate IsPositiveWalk(d: seq<seq<real>>, w: seq<nat>)
    requires IsSquare(d)
  {
    |w| >= 1 && Bounded(w, |d|) && forall i :: 0 <= i < |w| - 1 ==> d[w[i]][w[i + 1]] > 0.0
  }

  /** Some positive walk leads from a to b. */
  ghost predicate Reachable(d: seq<seq<real>>, a: nat, b: nat)
    requires IsSquare(d)
  {
    exists w :: IsPositiveWalk(d, w) && w[0] == a && w[|w| - 1] == b
  }

  /** A prefix of a positive walk is a positive walk and no longer. */
  lemma {:induction false} WalkPrefixShorter(d: seq<seq<real>>, w: seq<nat>, k: nat)
    requires IsSquare(d) && IsPositiveWalk(d, w) && 1 <= k <= |w|
    ensures IsPositiveWalk(d, w[..k]) && OpenLength(d, w[..k]) <= OpenLength(d, w)
    decreases |w| - k
  {
    if k < |w| {
      WalkPrefixShorter(d, w, k + 1);
      assert w[..k + 1][..k] == w[..k];
      assert w[..k + 1][k - 1] == w[k - 1] && w[..k + 1][k] == w[k];
    } else {
      assert w[..k] == w;
    }
  }

  /** The first point of w outside `seen`, when its last point is outside. */
  lemma FirstOutside(w: seq<nat>, seen: seq<nat>) returns (k: nat)
    requires |w| >= 1 && w[|w| - 1] !in seen
    ensures k < |w| && w[k] !in seen && (k > 0 ==> w[k - 1] in seen)
  {
    k := |w| - 1;
    while k > 0 && w[k - 1] !in seen
      invariant k < |w| && w[k] !in seen
    {
      k := k - 1;
    }
  }

  // ---------------------------------------------------------- one step

  /** The arrays `dist` and `prev`. */
  datatype State = State(dist: seq<Dist>, prev: seq<int>)

  predicate Sized(d: seq<seq<real>>, s: State) {
    |s.dist| == |d| && |s.prev| == |d|
  }

  /** `dist` all `Infinity` but `dist[start] = 0`; `prev` all -1. */
  function Initial(n: nat, start: nat): (s: State)
    ensures |s.dist| == n && |s.prev| == n
  {
    State(seq(n, v => if v == start then Fin(0.0) else Inf), seq(n, _ => -1))
  }

  /** Relaxing the edge u -> v lowers `dist[v]`: v is unvisited, the edge is positive, and the detour is shorter. */
  predicate Improves(d: seq<seq<real>>, s: State, visited: seq<nat>, u: nat, v: nat)
    requires IsSquare(d) && Sized(d, s) && u < |d| && v < |d|
  {
    v !in visited && d[u][v] > 0.0 && Less(Plus(s.dist[u], d[u][v]), s.dist[v])
  }

  /** The relaxation loop over v after u is marked visited. */
  function Relax(d: seq<seq<real>>, s: State, visited: seq<nat>, u: nat): (r: State)
    requires IsSquare(d) && Sized(d, s) && u < |d|
    ensures Sized(d, r)
  {
    State(
      seq(|d|, v requires 0 <= v < |d| =>
        if Improves(d, s, visited, u, v) then Plus(s.dist[u], d[u][v]) else s.dist[v]),
      seq(|d|, v requires 0 <= v < |d| =>
        if Improves(d, s, visited, u, v) then u else s.prev[v]))
  }

  /**
   * Relaxation never raises a tentative distance, and changes a point's entries
   * only when that point is unvisited and a positive edge from u leads to it.
   */
  lemma RelaxNeverIncreases(d: seq<seq<real>>, s: State, visited: seq<nat>, u: nat)
    requires IsSquare(d) && Sized(d, s) && u < |d|
    ensures forall v :: 0 <= v < |d| ==> AtMost(Relax(d, s, visited, u).dist[v], s.dist[v])
    ensures forall v :: 0 <= v < |d| && (Relax(d, s, visited, u).dist[v] != s.dist[v] || Relax(d, s, visited, u).prev[v] != s.prev[v]) ==>
      v !in visited && d[u][v] > 0.0 && Relax(d, s, visited, u).prev[v] == u
  {
  }

  /**
   * The scan's choice: the unvisited point of least tentative distance,
   * strictly below every unvisited point of lower index.
   */
  predicate IsSelected(dist: seq<Dist>, visited: seq<nat>, u: nat) {
    && u < |dist| && u !in visited
    && (forall j :: 0 <= j < |dist| && j !in visited ==> AtMost(dist[u], dist[j]))
    && (forall j :: 0 <= j < u && j !in visited ==> Less(dist[u], dist[j]))
  }

  lemma SelectedUnique(dist: seq<Dist>, visited: seq<nat>, a: nat, b: nat)
    requires IsSelected(dist, visited, a) && IsSelected(dist, visited, b)
    ensures a == b
  {
  }

  // ---------------------------------------------------------- runs

  /** The arrays after visiting the points of `order` in turn. */
  function StateAfter(d: seq<seq<real>>, start: nat, order: seq<nat>): (s: State)
    requires IsSquare(d) && start < |d| && Bounded(order, |d|)
    ensures Sized(d, s)
  {
    if order == [] then Initial(|d|, start)
    else Relax(d, StateAfter(d, start, order[..|order| - 1]), order, order[|order| - 1])
  }

  /** The k-th point of `order` is the scan's choice after the points before it. */
  ghost predicate DijkstraStep(d: seq<seq<real>>, start: nat, order: seq<nat>, k: nat)
    requires IsSquare(d) && start < |d| && Bounded(order, |d|) && k < |order|
  {
    IsSelected(StateAfter(d, start, order[..k]).dist, order[..k], order[k])
  }

  /** Every step of `order` is the scan's choice. */
  ghost predicate PartialTrace(d: seq<seq<real>>, start: nat, order: seq<nat>)
    requires IsSquare(d) && start < |d|
  {
    Bounded(order, |d|) && forall k :: 0 <= k < |order| ==> DijkstraStep(d, start, order, k)
  }

  /** The visiting order of a complete run of the main loop: it visits all n points. */
  ghost predicate IsDijkstraTrace(d: seq<seq<real>>, start: nat, order: seq<nat>)
    requires IsSquare(d) && start < |d|
  {
    |order| == |d| && PartialTrace(d, start, order)
  }

  lemma PartialTracePrefix(d: seq<seq<real>>, start: nat, order: seq<nat>, k: nat)
    requires IsSquare(d) && start < |d| && PartialTrace(d, start, order) && k <= |order|
    ensures PartialTrace(d, start, order[..k])
  {
    forall j | 0 <= j < k ensures DijkstraStep(d, start, order[..k], j) {
      assert order[..k][..j] == order[..j];
      assert DijkstraStep(d, start, order, j);
    }
  }

  /** The loop's choices are forced: two runs on the same table visit in the same order. */
  lemma TraceUnique(d: seq<seq<real>>, start: nat, o1: seq<nat>, o2: seq<nat>)
    requires IsSquare(d) && start < |d| && IsDijkstraTrace(d, start, o1) && IsDijkstraTrace(d, start, o2)
    ensures o1 == o2
  {
    TracePrefixesAgree(d, start, o1, o2, |d|);
    assert o1 == o1[..|d|] && o2 == o2[..|d|];
  }

  lemma {:induction false} TracePrefixesAgree(d: seq<seq<real>>, start: nat, o1: seq<nat>, o2: seq<nat>, k: nat)
    requires IsSquare(d) && start < |d| && IsDijkstraTrace(d, start, o1) && IsDijkstraTrace(d, start, o2)
    requires k <= |d|
    ensures o1[..k] == o2[..k]
  {
    if k > 0 {
      TracePrefixesAgree(d, start, o1, o2, k - 1);
      assert DijkstraStep(d, start, o1, k - 1) && DijkstraStep(d, start, o2, k - 1);
      SelectedUnique(StateAfter(d, start, o1[..k - 1]).dist, o1[..k - 1], o1[k - 1], o2[k - 1]);
      assert o1[..k] == o1[..k - 1] + [o1[k - 1]];
      assert o2[..k] == o2[..k - 1] + [o2[k - 1]];
    }
  }

  // ---------------------------------------------------------- invariants

  /** `dist[start]` is 0 and `prev[start]` is -1; before the first step all else is `Infinity`; after it, start is visited. */
  ghost predicate StartFacts(d: seq<seq<real>>, start: nat, order: seq<nat>, s: State)
    requires IsSquare(d) && Sized(d, s) && start < |d|
  {
    && s.dist[start] == Fin(0.0) && s.prev[start] == -1
    && (order == [] ==> forall v :: 0 <= v < |d| && v != start ==> s.dist[v] == Inf)
    && (order != [] ==> start in order)
  }

  /** `prev[v] = p` records a visited p with a finite distance and the edge p -> v that gave `dist[v]`. */
  ghost predicate PrevLink(d: seq<seq<real>>, order: seq<nat>, s: State, v: nat)
    requires IsSquare(d) && Sized(d, s) && v < |d|
  {
    var p := s.prev[v];
    p != -1 ==>
      && 0 <= p < |d| && (p as nat) in order && d[p][v] > 0.0
      && s.dist[p].Fin? && s.dist[v] == Plus(s.dist[p], d[p][v])
  }

  /** Every point but the start has a predecessor exactly when its distance is finite, and the links hold. */
  ghost predicate PrevFacts(d: seq<seq<real>>, start: nat, order: seq<nat>, s: State)
    requires IsSquare(d) && Sized(d, s)
  {
    forall v :: 0 <= v < |d| ==> (v != start ==> (s.prev[v] == -1 <==> s.dist[v] == Inf)) && PrevLink(d, order, s, v)
  }

  /** The predecessor of a visited point was visited before it. */
  ghost predicate PrevEarlier(d: seq<seq<real>>, order: seq<nat>, s: State)
    requires IsSquare(d) && Sized(d, s) && Bounded(order, |d|)
  {
    EarlierLinks(s.prev, order)
  }

  /** `du` is no longer than any positive walk from start to u. */
  ghost predicate ShortestTo(d: seq<seq<real>>, start: nat, du: Dist, u: nat)
    requires IsSquare(d)
  {
    forall w :: IsPositiveWalk(d, w) && w[0] == start && w[|w| - 1] == u ==> AtMost(du, Fin(OpenLength(d, w)))
  }

  /** A visited point's distance is no longer than any positive walk to it. */
  ghost predicate VisitedShortest(d: seq<seq<real>>, start: nat, order: seq<nat>, s: State)
    requires IsSquare(d) && Sized(d, s)
  {
    forall u :: 0 <= u < |d| && u in order ==> ShortestTo(d, start, s.dist[u], u)
  }

  /** Every positive edge from a visited to an unvisited point has been relaxed. */
  ghost predicate Relaxed(d: seq<seq<real>>, order: seq<nat>, s: State)
    requires IsSquare(d) && Sized(d, s)
  {
    forall x, v :: 0 <= x < |d| && x in order && 0 <= v < |d| && v !in order && d[x][v] > 0.0 ==>
      AtMost(s.dist[v], Plus(s.dist[x], d[x][v]))
  }

  /** No visited point is farther than an unvisited one. */
  ghost predicate Ordered(d: seq<seq<real>>, order: seq<nat>, s: State)
    requires IsSquare(d) && Sized(d, s)
  {
    forall x, v :: 0 <= x < |d| && x in order && 0 <= v < |d| && v !in order ==> AtMost(s.dist[x], s.dist[v])
  }

  ghost predicate Inv(d: seq<seq<real>>, start: nat, order: seq<nat>, s: State)
    requires IsSquare(d) && start < |d| && Bounded(order, |d|)
  {
    && Sized(d, s) && Distinct(order)
    && StartFacts(d, start, order, s) && PrevFacts(d, start, order, s) && PrevEarlier(d, order, s)
    && VisitedShortest(d, start, order, s) && Relaxed(d, order, s) && Ordered(d, order, s)
  }

  /** The common setting of the step lemmas: u is the scan's choice in state s after `order`. */
  predicate StepReady(d: seq<seq<real>>, start: nat, order: seq<nat>, s: State, u: nat)
    requires IsSquare(d)
  {
    start < |d| && Bounded(order, |d|) && Sized(d, s) && IsSelected(s.dist, order, u)
  }

  lemma StepStart(d: seq<seq<real>>, start: nat, order: seq<nat>, s: State, u: nat)
    requires IsSquare(d) && StepReady(d, start, order, s, u) && StartFacts(d, start, order, s)
    ensures order == [] ==> u == start
    ensures StartFacts(d, start, order + [u], Relax(d, s, order + [u], u))
  {
    if order == [] {
      assert AtMost(s.dist[u], s.dist[start]);
    }
  }

  lemma StepPrev(d: seq<seq<real>>, start: nat, order: seq<nat>, s: State, u: nat)
    requires IsSquare(d) && StepReady(d, start, order, s, u)
    requires StartFacts(d, start, order, s) && PrevFacts(d, start, order, s)
    ensures PrevFacts(d, start, order + [u], Relax(d, s, order + [u], u))
  {
    var order' := order + [u];
    var r := Relax(d, s, order', u);
    StepStart(d, start, order, s, u);
    assert u in order';
    forall v | 0 <= v < |d|
      ensures (v != start ==> (r.prev[v] == -1 <==> r.dist[v] == Inf)) && PrevLink(d, order', r, v)
    {
      assert PrevLink(d, order, s, v);
      var p := s.prev[v];
      if p != -1 && !Improves(d, s, order', u, v) {
        assert (p as nat) in order';
        assert !Improves(d, s, order', u, p);
      }
    }
  }

  lemma StepEarlier(d: seq<seq<real>>, start: nat, order: seq<nat>, s: State, u: nat)
    requires IsSquare(d) && StepReady(d, start, order, s, u)
    requires PrevFacts(d, start, order, s) && PrevEarlier(d, order, s)
    ensures PrevEarlier(d, order + [u], Relax(d, s, order + [u], u))
  {
    var order' := order + [u];
    var r := Relax(d, s, order', u);
    forall k | 0 <= k < |order'|
      ensures var p := r.prev[order'[k]]; p == -1 || (0 <= p && (p as nat) in order'[..k])
    {
      assert order'[k] in order';
      assert r.prev[order'[k]] == s.prev[order'[k]];
      if k < |order| {
        assert order'[..k] == order[..k];
      } else {
        assert order'[..k] == order;
        assert PrevLink(d, order, s, u);
      }
    }
  }

  /** The heart of the proof: the chosen point's distance is already no longer than any positive walk to it. */
  lemma SelectedIsShortest(d: seq<seq<real>>, start: nat, order: seq<nat>, s: State, u: nat)
    requires IsSquare(d) && StepReady(d, start, order, s, u)
    requires StartFacts(d, start, order, s) && VisitedShortest(d, start, order, s) && Relaxed(d, order, s)
    ensures ShortestTo(d, start, s.dist[u], u)
  {
    forall w | IsPositiveWalk(d, w) && w[0] == start && w[|w| - 1] == u
      ensures AtMost(s.dist[u], Fin(OpenLength(d, w)))
    {
      var k := FirstOutside(w, order);
      WalkPrefixShorter(d, w, k + 1);
      WalkPrefixShorter(d, w, 1);
      if k == 0 {
        assert AtMost(s.dist[u], s.dist[start]);
      } else {
        var x, y := w[k - 1], w[k];
        WalkPrefixShorter(d, w, k);
        assert ShortestTo(d, start, s.dist[x], x);
        assert w[..k][0] == start && w[..k][k - 1] == x;
        assert AtMost(s.dist[x], Fin(OpenLength(d, w[..k])));
        assert w[..k + 1][..k] == w[..k];
        assert w[..k + 1][k - 1] == x && w[..k + 1][k] == y;
        assert OpenLength(d, w[..k + 1]) == OpenLength(d, w[..k]) + d[x][y];
        assert d[x][y] > 0.0;
        assert AtMost(s.dist[y], Plus(s.dist[x], d[x][y]));
        assert AtMost(s.dist[u], s.dist[y]);
      }
    }
  }

  lemma StepShortest(d: seq<seq<real>>, start: nat, order: seq<nat>, s: State, u: nat)
    requires IsSquare(d) && StepReady(d, start, order, s, u)
    requires StartFacts(d, start, order, s) && VisitedShortest(d, start, order, s) && Relaxed(d, order, s)
    ensures VisitedShortest(d, start, order + [u], Relax(d, s, order + [u], u))
  {
    var order' := order + [u];
    var r := Relax(d, s, order', u);
    SelectedIsShortest(d, start, order, s, u);
    forall x | 0 <= x < |d| && x in order' ensures ShortestTo(d, start, r.dist[x], x) {
      assert !Improves(d, s, order', u, x);
      if x != u {
        assert x in order;
      }
    }
  }

  lemma StepRelaxed(d: seq<seq<real>>, start: nat, order: seq<nat>, s: State, u: nat)
    requires IsSquare(d) && StepReady(d, start, order, s, u) && Relaxed(d, order, s)
    ensures Relaxed(d, order + [u], Relax(d, s, order + [u], u))
  {
    var order' := order + [u];
    var r := Relax(d, s, order', u);
    forall x, v | 0 <= x < |d| && x in order' && 0 <= v < |d| && v !in order' && d[x][v] > 0.0
      ensures AtMost(r.dist[v], Plus(r.dist[x], d[x][v]))
    {
      assert !Improves(d, s, order', u, x);
      if x != u {
        assert x in order && v !in order;
        assert AtMost(s.dist[v], Plus(s.dist[x], d[x][v]));
      }
    }
  }

  lemma StepOrdered(d: seq<seq<real>>, start: nat, order: seq<nat>, s: State, u: nat)
    requires IsSquare(d) && StepReady(d, start, order, s, u) && Ordered(d, order, s)
    ensures Ordered(d, order + [u], Relax(d, s, order + [u], u))
  {
    var order' := order + [u];
    var r := Relax(d, s, order', u);
    forall x, v | 0 <= x < |d| && x in order' && 0 <= v < |d| && v !in order'
      ensures AtMost(r.dist[x], r.dist[v])
    {
      assert !Improves(d, s, order', u, x);
      assert v !in order;
      assert AtMost(s.dist[u], s.dist[v]);
      if x != u {
        assert x in order;
        assert AtMost(s.dist[x], s.dist[u]) && AtMost(s.dist[x], s.dist[v]);
      }
    }
  }

  /** One iteration of the main loop keeps every invariant. */
  lemma StepInv(d: seq<seq<real>>, start: nat, order: seq<nat>, s: State, u: nat)
    requires IsSquare(d) && StepReady(d, start, order, s, u) && Inv(d, start, order, s)
    ensures Bounded(order + [u], |d|)
    ensures Inv(d, start, order + [u], Relax(d, s, order + [u], u))
  {
    StepStart(d, start, order, s, u);
    StepPrev(d, start, order, s, u);
    StepEarlier(d, start, order, s, u);
    StepShortest(d, start, order, s, u);
    StepRelaxed(d, start, order, s, u);
    StepOrdered(d, start, order, s, u);
  }

  /** The invariants hold after every prefix of a run. */
  lemma {:induction false} TraceInvariant(d: seq<seq<real>>, start: nat, order: seq<nat>)
    requires IsSquare(d) && start < |d| && PartialTrace(d, start, order)
    ensures Inv(d, start, order, StateAfter(d, start, order))
  {
    if order != [] {
      var init := order[..|order| - 1];
      var u := order[|order| - 1];
      PartialTracePrefix(d, start, order, |order| - 1);
      TraceInvariant(d, start, init);
      assert DijkstraStep(d, start, order, |order| - 1);
      assert order == init + [u];
      StepInv(d, start, init, StateAfter(d, start, init), u);
    }
  }

  // ---------------------------------------------------------- the arrays

  /** The selection scan `if (!visited[j] && (u === -1 || dist[j] < dist[u])) u = j`. */
  method SelectMin(dist: array<Dist>, visited: array<bool>, ghost order: seq<nat>) returns (u: int)
    requires visited.Length == dist.Length
    requires forall j :: 0 <= j < dist.Length ==> (visited[j] <==> j in order)
    ensures u == -1 <==> forall j :: 0 <= j < dist.Length ==> j in order
    ensures u != -1 ==> 0 <= u && IsSelected(dist[..], order, u)
  {
    u := -1;
    for j := 0 to dist.Length
      invariant u == -1 ==> forall m :: 0 <= m < j ==> m in order
      invariant u != -1 ==> 0 <= u < j && u !in order
      invariant u != -1 ==> forall m :: 0 <= m < j && m !in order ==> AtMost(dist[u], dist[m])
      invariant u != -1 ==> forall m :: 0 <= m < u && m !in order ==> Less(dist[u], dist[m])
    {
      if !visited[j] && (u == -1 || Less(dist[j], dist[u])) {
        u := j;
      }
    }
  }

  /** The relaxation loop `for v: if (!visited[v] && d[u][v] > 0 && dist[u] + d[u][v] < dist[v]) ...`. */
  method RelaxFrom(d: seq<seq<real>>, u: nat, dist: array<Dist>, prev: array<int>, visited: array<bool>, ghost order: seq<nat>)
    requires IsSquare(d) && u < |d| && dist.Length == |d| && prev.Length == |d| && visited.Length == |d|
    requires forall j :: 0 <= j < |d| ==> (visited[j] <==> j in order)
    requires u in order
    modifies dist, prev
    ensures State(dist[..], prev[..]) == Relax(d, State(old(dist[..]), old(prev[..])), order, u)
  {
    ghost var s := State(dist[..], prev[..]);
    ghost var r := Relax(d, s, order, u);
    for v := 0 to |d|
      invariant forall j :: 0 <= j < v ==> dist[j] == r.dist[j] && prev[j] == r.prev[j]
      invariant forall j :: v <= j < |d| ==> dist[j] == s.dist[j] && prev[j] == s.prev[j]
    {
      assert dist[u] == s.dist[u] by {
        assert !Improves(d, s, order, u, u);
      }
      if !visited[v] && d[u][v] > 0.0 {
        var alt := Plus(dist[u], d[u][v]);
        if Less(alt, dist[v]) {
          dist[v] := alt;
          prev[v] := u;
        }
      }
    }
    assert dist[..] == r.dist && prev[..] == r.prev;
  }

  /** The path read back from `end` along `prev` until -1, as `path.unshift(current)` builds it. */
  predicate IsPrevChain(prev: seq<int>, end: nat, path: seq<nat>) {
    && |path| >= 1 && Bounded(path, |prev|) && path[|path| - 1] == end && prev[path[0]] == -1
    && forall i :: 0 <= i < |path| - 1 ==> prev[path[i + 1]] == path[i]
  }

  /** A chain is longer than one point exactly when its last point has a predecessor. */
  lemma ChainLength(prev: seq<int>, end: nat, path: seq<nat>)
    requires IsPrevChain(prev, end, path)
    ensures |path| > 1 <==> prev[end] != -1
  {
    if |path| > 1 {
      assert prev[path[|path| - 1]] == path[|path| - 2];
    }
  }

  /** At most one chain leads back from a point. */
  lemma {:induction false} PrevChainUnique(prev: seq<int>, end: nat, p1: seq<nat>, p2: seq<nat>)
    requires IsPrevChain(prev, end, p1) && IsPrevChain(prev, end, p2)
    ensures p1 == p2
    decreases |p1|
  {
    ChainLength(prev, end, p1);
    ChainLength(prev, end, p2);
    if |p1| > 1 && |p2| > 1 {
      var a := p1[|p1| - 2];
      assert prev[end] == a && p2[|p2| - 2] == a;
      var q1, q2 := p1[..|p1| - 1], p2[..|p2| - 1];
      assert IsPrevChain(prev, a, q1) by {
        assert forall i :: 0 <= i < |q1| ==> q1[i] == p1[i];
      }
      assert IsPrevChain(prev, a, q2) by {
        assert forall i :: 0 <= i < |q2| ==> q2[i] == p2[i];
      }
      PrevChainUnique(prev, a, q1, q2);
      assert p1 == q1 + [end] && p2 == q2 + [end];
    }
  }

  /** What `dijkstra(d, start, end)` returns: the predecessor chain of `end` after a complete run. */
  ghost predicate DijkstraResult(d: seq<seq<real>>, start: nat, end: nat, path: seq<nat>)
    requires IsSquare(d) && start < |d|
  {
    exists order :: IsDijkstraTrace(d, start, order) && IsPrevChain(StateAfter(d, start, order).prev, end, path)
  }

  /** `dijkstra`: n rounds of select, mark and relax, then the walk back from `end`. */
  method DijkstraPath(d: seq<seq<real>>, start: nat, end: nat) returns (path: seq<nat>)
    requires IsSquare(d) && start < |d| && end < |d|
    ensures DijkstraResult(d, start, end, path)
  {
    var prevs, order := ShortestPathTree(d, start);
    TraceInvariant(d, start, order);
    LinksInRange(d, start, order, StateAfter(d, start, order));
    Covers(order, |d|);
    path := ReadBack(prevs, end, order);
  }

  /** The main loop of `dijkstra`: n rounds of select, mark and relax; the result is the `prev` array. */
  method ShortestPathTree(d: seq<seq<real>>, start: nat) returns (prevs: seq<int>, ghost order: seq<nat>)
    requires IsSquare(d) && start < |d|
    ensures IsDijkstraTrace(d, start, order) && prevs == StateAfter(d, start, order).prev
  {
    var n := |d|;
    var dist := new Dist[n](_ => Inf);
    var prev := new int[n](_ => -1);
    var visited := new bool[n](_ => false);
    dist[start] := Fin(0.0);
    order := [];
    assert State(dist[..], prev[..]) == Initial(n, start);
    for i := 0 to n
      invariant |order| == i && Bounded(order, n) && Distinct(order)
      invariant forall j :: 0 <= j < n ==> (visited[j] <==> j in order)
      invariant State(dist[..], prev[..]) == StateAfter(d, start, order)
      invariant PartialTrace(d, start, order)
    {
      var missing := MissingIndex(order, n);
      var u := SelectMin(dist, visited, order);
      if u == -1 {
        break;
      }
      visited[u] := true;
      RelaxFrom(d, u, dist, prev, visited, order + [u]);
      TraceExtend(d, start, order, u);
      order := order + [u];
    }
    prevs := prev[..];
  }

  /** Appending the scan's choice extends a run. */
  lemma TraceExtend(d: seq<seq<real>>, start: nat, order: seq<nat>, u: nat)
    requires IsSquare(d) && start < |d| && PartialTrace(d, start, order)
    requires IsSelected(StateAfter(d, start, order).dist, order, u)
    ensures PartialTrace(d, start, order + [u])
    ensures StateAfter(d, start, order + [u]) == Relax(d, StateAfter(d, start, order), order + [u], u)
    ensures Distinct(order) ==> Distinct(order + [u])
  {
    var order' := order + [u];
    assert order'[..|order|] == order;
    forall k | 0 <= k < |order'| ensures DijkstraStep(d, start, order', k) {
      if k < |order| {
        assert order'[..k] == order[..k];
        assert DijkstraStep(d, start, order, k);
      }
    }
  }

  /** The predecessor of every visited point was visited before it. */
  predicate EarlierLinks(prevs: seq<int>, order: seq<nat>)
    requires Bounded(order, |prevs|)
  {
    forall k :: 0 <= k < |order| ==>
      var p := prevs[order[k]]; p == -1 || (0 <= p && (p as nat) in order[..k])
  }

  /** Every `prev` entry is -1 or a point. */
  predicate InRange(prevs: seq<int>) {
    forall v :: 0 <= v < |prevs| ==> -1 <= prevs[v] < |prevs|
  }

  lemma LinksInRange(d: seq<seq<real>>, start: nat, order: seq<nat>, s: State)
    requires IsSquare(d) && start < |d| && Bounded(order, |d|) && Inv(d, start, order, s)
    ensures InRange(s.prev) && EarlierLinks(s.prev, order)
  {
    forall v | 0 <= v < |d| ensures -1 <= s.prev[v] < |d| {
      assert PrevLink(d, order, s, v);
    }
  }

  /**
   * The reconstruction `while (current !== -1) { path.unshift(current); current = prev[current] }`.
   * It ends because each step moves to a point visited earlier.
   */
  method ReadBack(prevs: seq<int>, end: nat, ghost order: seq<nat>) returns (path: seq<nat>)
    requires end < |prevs| && InRange(prevs) && Bounded(order, |prevs|) && EarlierLinks(prevs, order)
    requires forall j: nat :: j < |prevs| ==> j in order
    ensures IsPrevChain(prevs, end, path)
  {
    var n := |prevs|;
    path := [];
    var current: int := end;
    ghost var idx: nat := PositionOf(order, end);
    while current != -1
      invariant current != -1 ==> 0 <= current < n && idx < |order| && order[idx] == current
      invariant Bounded(path, n)
      invariant path == [] ==> current == end
      invariant path != [] ==> path[|path| - 1] == end && prevs[path[0]] == current
      invariant forall i :: 0 <= i < |path| - 1 ==> prevs[path[i + 1]] == path[i]
      decreases if current == -1 then 0 else idx + 1
    {
      path := [current] + path;
      var p := prevs[current];
      if p != -1 {
        assert (p as nat) in order[..idx];
        idx := PositionOf(order[..idx], p);
      }
      current := p;
    }
  }

  /** Where v occurs in s. */
  lemma PositionOf(order: seq<nat>, v: nat) returns (k: nat)
    requires v in order
    ensures k < |order| && order[k] == v
  {
    k :| 0 <= k < |order| && order[k] == v;
  }

  // ---------------------------------------------------------- what the path means

  /** The position of v in a duplicate-free visiting order. */
  ghost function Pos(order: seq<nat>, v: nat): (k: nat)
    requires v in order
    ensures k < |order| && order[k] == v
  {
    var k :| 0 <= k < |order| && order[k] == v; k
  }

  /** Along a chain, points were visited ever earlier going back. */
  lemma {:induction false} ChainRising(prev: seq<int>, order: seq<nat>, end: nat, path: seq<nat>, i: nat, j: nat)
    requires IsPrevChain(prev, end, path) && Bounded(order, |prev|) && Distinct(order) && EarlierLinks(prev, order)
    requires forall v: nat :: v < |prev| ==> v in order
    requires i < j < |path|
    ensures Pos(order, path[i]) < Pos(order, path[j])
    decreases j - i
  {
    var k := Pos(order, path[j]);
    assert prev[order[k]] == path[j - 1];
    assert path[j - 1] in order[..k];
    var m :| 0 <= m < k && order[..k][m] == path[j - 1];
    assert Pos(order, path[j - 1]) == m;
    if i < j - 1 {
      ChainRising(prev, order, end, path, i, j - 1);
    }
  }

  /** Walking forward along the chain follows the edges that set each distance. */
  lemma {:induction false} ChainPrefix(d: seq<seq<real>>, start: nat, order: seq<nat>, s: State, end: nat, path: seq<nat>, i: nat)
    requires IsSquare(d) && start < |d| && Sized(d, s) && s.dist[start] == Fin(0.0) && PrevFacts(d, start, order, s)
    requires IsPrevChain(s.prev, end, path) && 1 <= i <= |path|
    requires s.dist[path[i - 1]].Fin?
    ensures path[0] == start && IsPositiveWalk(d, path[..i]) && s.dist[path[i - 1]] == Fin(OpenLength(d, path[..i]))
  {
    if i == 1 {
      assert s.prev[path[0]] == -1;
      assert path[..1] == [path[0]];
    } else {
      var a, b := path[i - 2], path[i - 1];
      assert s.prev[b] == a;
      assert PrevLink(d, order, s, b);
      ChainPrefix(d, start, order, s, end, path, i - 1);
      assert path[..i][..i - 1] == path[..i - 1];
      assert path[..i][i - 2] == a && path[..i][i - 1] == b;
      assert forall k :: 0 <= k < i - 1 ==> path[..i][k] == path[..i - 1][k];
    }
  }

  /**
   * The path `dijkstra` returns ends at `end` and repeats no point. When some
   * positive walk leads from start to end, the path is one, begins at the
   * start, and is no longer than any of them; otherwise it is `[end]` alone.
   */
  lemma DijkstraPathProperties(d: seq<seq<real>>, start: nat, end: nat, path: seq<nat>)
    requires IsSquare(d) && start < |d| && end < |d| && DijkstraResult(d, start, end, path)
    ensures |path| >= 1 && Bounded(path, |d|) && path[|path| - 1] == end && Distinct(path)
    ensures Reachable(d, start, end) ==>
      && path[0] == start && IsPositiveWalk(d, path)
      && forall w :: IsPositiveWalk(d, w) && w[0] == start && w[|w| - 1] == end ==> OpenLength(d, path) <= OpenLength(d, w)
    ensures !Reachable(d, start, end) ==> path == [end]
  {
    var order :| IsDijkstraTrace(d, start, order) && IsPrevChain(StateAfter(d, start, order).prev, end, path);
    var s := StateAfter(d, start, order);
    ChainDistinct(d, start, end, order, path);
    TraceInvariant(d, start, order);
    Covers(order, |d|);
    assert end in order;
    ChainMeaning(d, start, end, order, s, path);
  }

  /** What a chain means once the end's distance is known to be shortest. */
  lemma ChainMeaning(d: seq<seq<real>>, start: nat, end: nat, order: seq<nat>, s: State, path: seq<nat>)
    requires IsSquare(d) && start < |d| && end < |d| && Sized(d, s)
    requires s.dist[start] == Fin(0.0) && PrevFacts(d, start, order, s)
    requires ShortestTo(d, start, s.dist[end], end) && IsPrevChain(s.prev, end, path)
    ensures Reachable(d, start, end) ==>
      && path[0] == start && IsPositiveWalk(d, path)
      && forall w :: IsPositiveWalk(d, w) && w[0] == start && w[|w| - 1] == end ==> OpenLength(d, path) <= OpenLength(d, w)
    ensures !Reachable(d, start, end) ==> path == [end]
  {
    if s.dist[end].Fin? {
      ChainPrefix(d, start, order, s, end, path, |path|);
      assert path[..|path|] == path;
    } else {
      ChainLength(s.prev, end, path);
    }
  }

  /** A predecessor chain after a complete run repeats no point, since each link goes to a point visited earlier. */
  lemma ChainDistinct(d: seq<seq<real>>, start: nat, end: nat, order: seq<nat>, path: seq<nat>)
    requires IsSquare(d) && start < |d| && IsDijkstraTrace(d, start, order)
    requires IsPrevChain(StateAfter(d, start, order).prev, end, path)
    ensures Distinct(path)
  {
    var s := StateAfter(d, start, order);
    TraceInvariant(d, start, order);
    Covers(order, |d|);
    LinksInRange(d, start, order, s);
    forall i, j | 0 <= i < j < |path| ensures path[i] != path[j] {
      ChainRising(s.prev, order, end, path, i, j);
    }
  }

  // ---------------------------------------------------------- the solver

  /** What `solve` answers: the points along the path, the sum of its edges, and the weight of every bin. */
  ghost predicate DijkstraResponse(request: RouteRequest, h: GeoDistance, response: RouteResponse) {
    var points := Waypoints(request.startPoint, request.bins, request.endPoint);
    var d := Matrix(points, h);
    exists path ::
      && DijkstraResult(d, 0, |points| - 1, path) && Bounded(path, |points|)
      && response.path == Gather(points, path)
      && response.totalDistance == OpenLength(d, path)
      && response.capacityUsed == TotalWeight(request.bins)
  }

  method Solve(request: RouteRequest, h: GeoDistance) returns (response: RouteResponse)
    ensures response.executionTime == 0
    ensures DijkstraResponse(request, h, response)
  {
    var allPoints := Waypoints(request.startPoint, request.bins, request.endPoint);
    var distances := CalculateDistanceMatrix(allPoints, h);
    var shortestPath := DijkstraPath(distances, 0, |allPoints| - 1);
    DijkstraPathProperties(distances, 0, |allPoints| - 1, shortestPath);
    var path := Gather(allPoints, shortestPath);
    var totalDistance := SumConsecutiveEdges(distances, shortestPath);
    var capacityUsed := TotalWeight(request.bins);
    response := RouteResponse(path, totalDistance, capacityUsed, 0);
  }

  /**
   * The shortest-path solver's answer ends at the end point and shows no
   * position twice. When the end can be reached over positive edges, it
   * starts at the start point and its distance is the least over all such
   * walks; otherwise the path is the end point alone with distance 0. When
   * no two waypoints coincide, the end is always reached, no farther than
   * the direct edge.
   */
  lemma DijkstraResponseProperties(request: RouteRequest, h: GeoDistance, response: RouteResponse)
    requires DijkstraResponse(request, h, response)
    ensures 1 <= |response.path| <= |request.bins| + 2
    ensures response.path[|response.path| - 1] == EndPoint(request.endPoint)
    ensures var points := Waypoints(request.startPoint, request.bins, request.endPoint);
      var d := Matrix(points, h);
      && (Reachable(d, 0, |points| - 1) ==>
        && response.path[0] == StartPoint(request.startPoint)
        && response.totalDistance >= 0.0
        && forall w :: IsPositiveWalk(d, w) && w[0] == 0 && w[|w| - 1] == |points| - 1 ==>
          response.totalDistance <= OpenLength(d, w))
      && (!Reachable(d, 0, |points| - 1) ==>
        response.path == [EndPoint(request.endPoint)] && response.totalDistance == 0.0)
      && (PositiveOffDiagonal(d) ==>
        response.path[0] == StartPoint(request.startPoint) && response.totalDistance <= d[0][|points| - 1])
  {
    var points := Waypoints(request.startPoint, request.bins, request.endPoint);
    var d := Matrix(points, h);
    var n := |points|;
    var path :| DijkstraResult(d, 0, n - 1, path) && Bounded(path, n)
      && response.path == Gather(points, path) && response.totalDistance == OpenLength(d, path);
    DijkstraIndexFacts(d, n - 1, path);
    assert points[0] == StartPoint(request.startPoint) && points[n - 1] == EndPoint(request.endPoint);
  }

  /** The index-level facts behind the answer, for a table of at least two points from 0 to its last row. */
  lemma DijkstraIndexFacts(d: seq<seq<real>>, last: nat, path: seq<nat>)
    requires IsSquare(d) && |d| == last + 1 && last >= 1 && DijkstraResult(d, 0, last, path)
    ensures 1 <= |path| <= |d| && Bounded(path, |d|) && path[|path| - 1] == last
    ensures Reachable(d, 0, last) ==>
      && path[0] == 0 && OpenLength(d, path) >= 0.0
      && forall w :: IsPositiveWalk(d, w) && w[0] == 0 && w[|w| - 1] == last ==> OpenLength(d, path) <= OpenLength(d, w)
    ensures !Reachable(d, 0, last) ==> path == [last] && OpenLength(d, path) == 0.0
    ensures PositiveOffDiagonal(d) ==> path[0] == 0 && OpenLength(d, path) <= d[0][last]
  {
    DijkstraPathProperties(d, 0, last, path);
    DistinctLength(path, |d|);
    if Reachable(d, 0, last) {
      WalkPrefixShorter(d, path, 1);
      assert path[..1] == [path[0]];
    }
    if PositiveOffDiagonal(d) {
      var direct: seq<nat> := [0, last];
      assert IsPositiveWalk(d, direct);
      assert direct[..1] == [0];
      assert OpenLength(d, direct) == d[0][last];
    }
  }

  /** Two runs on the same request give the same answer. */
  lemma DijkstraDeterministic(request: RouteRequest, h: GeoDistance, r1: RouteResponse, r2: RouteResponse)
    requires DijkstraResponse(request, h, r1) && DijkstraResponse(request, h, r2)
    ensures r1.path == r2.path && r1.totalDistance == r2.totalDistance && r1.capacityUsed == r2.capacityUsed
  {
    var points := Waypoints(request.startPoint, request.bins, request.endPoint);
    var d := Matrix(points, h);
    var n := |points|;
    var p1 :| DijkstraResult(d, 0, n - 1, p1) && Bounded(p1, n)
      && r1.path == Gather(points, p1) && r1.totalDistance == OpenLength(d, p1);
    var p2 :| DijkstraResult(d, 0, n - 1, p2) && Bounded(p2, n)
      && r2.path == Gather(points, p2) && r2.totalDistance == OpenLength(d, p2);
    var o1 :| IsDijkstraTrace(d, 0, o1) && IsPrevChain(StateAfter(d, 0, o1).prev, n - 1, p1);
    var o2 :| IsDijkstraTrace(d, 0, o2) && IsPrevChain(StateAfter(d, 0, o2).prev, n - 1, p2);
    TraceUnique(d, 0, o1, o2);
    PrevChainUnique(StateAfter(d, 0, o1).prev, n - 1, p1, p2);
  }
}
