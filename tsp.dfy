/**
 * The tour solver: a nearest-neighbour order over `[start, ...bins, end]`,
 * reported as an open path but measured as a closed round trip, and the
 * 2-opt refinement that the file offers but `Solve` never calls.
 */
module Tsp {
  import opened SeqFacts
  import opened RouteTypes
  import opened Distances
  import opened NearestNeighbor

  /** What `Solve` answers for `request`: the greedy order, its round-trip length, and the weight of every bin. */
  ghost predicate TspResponse(request: RouteRequest, h: GeoDistance, response: RouteResponse) {
    var points := Waypoints(request.startPoint, request.bins, request.endPoint);
    var d := Matrix(points, h);
    exists tour: seq<nat> ::
      && IsGreedyTour(d, tour)
      && response.path == Gather(points, tour)
      && response.totalDistance == ClosedLength(d, tour)
      && response.capacityUsed == TotalWeight(request.bins)
  }

  method Solve(request: RouteRequest, h: GeoDistance) returns (response: RouteResponse)
    ensures response.executionTime == 0
    ensures TspResponse(request, h, response)
  {
    var allPoints := Waypoints(request.startPoint, request.bins, request.endPoint);
    var distances := CalculateDistanceMatrix(allPoints, h);
    var tour := NearestNeighborTour(distances);
    var path := Gather(allPoints, tour);
    var totalDistance := SumConsecutiveEdges(distances, tour);
    totalDistance := totalDistance + distances[tour[|tour| - 1]][tour[0]];
    var capacityUsed := TotalWeight(request.bins);
    response := RouteResponse(path, totalDistance, capacityUsed, 0);
  }

  /**
   * The tour solver's answer starts at the start point, visits the start,
   * every bin and the end exactly once and nothing else, and its length is
   * never negative when distances are not.
   */
  lemma TspResponseProperties(request: RouteRequest, h: GeoDistance, response: RouteResponse)
    requires TspResponse(request, h, response)
    ensures |response.path| == |request.bins| + 2
    ensures response.path[0] == StartPoint(request.startPoint)
    ensures forall b :: b in request.bins ==> b in response.path
    ensures EndPoint(request.endPoint) in response.path
    ensures forall b :: b in response.path ==>
      b == StartPoint(request.startPoint) || b == EndPoint(request.endPoint) || b in request.bins
    ensures multiset(response.path) == multiset(Waypoints(request.startPoint, request.bins, request.endPoint))
    ensures NonNegative(h) ==> response.totalDistance >= 0.0
  {
    var points := Waypoints(request.startPoint, request.bins, request.endPoint);
    var d := Matrix(points, h);
    var tour: seq<nat> :| IsGreedyTour(d, tour) && response.path == Gather(points, tour)
      && response.totalDistance == ClosedLength(d, tour);
    GreedyRouteVisitsAll(points, request.startPoint, request.bins, request.endPoint, h, tour);
    if NonNegative(h) {
      MatrixProperties(points, h);
      OpenLengthNonNegative(d, tour);
    }
  }

  /** Two runs on the same request give the same path, distance and capacity. */
  lemma TspDeterministic(request: RouteRequest, h: GeoDistance, r1: RouteResponse, r2: RouteResponse)
    requires TspResponse(request, h, r1) && TspResponse(request, h, r2)
    ensures r1.path == r2.path && r1.totalDistance == r2.totalDistance && r1.capacityUsed == r2.capacityUsed
  {
    var points := Waypoints(request.startPoint, request.bins, request.endPoint);
    var d := Matrix(points, h);
    var t1: seq<nat> :| IsGreedyTour(d, t1) && r1.path == Gather(points, t1)
      && r1.totalDistance == ClosedLength(d, t1);
    var t2: seq<nat> :| IsGreedyTour(d, t2) && r2.path == Gather(points, t2)
      && r2.totalDistance == ClosedLength(d, t2);
    GreedyTourUnique(d, t1, t2);
  }

  /** `calculateTourDistance`: the round-trip length of `tour`. */
  method CalculateTourDistance(tour: seq<nat>, d: seq<seq<real>>) returns (totalDistance: real)
    requires IsSquare(d) && Bounded(tour, |d|) && |tour| >= 1
    ensures totalDistance == ClosedLength(d, tour)
  {
    totalDistance := SumConsecutiveEdges(d, tour);
    totalDistance := totalDistance + d[tour[|tour| - 1]][tour[0]];
  }

  /** `tour` with the segment from position i to position j reversed. */
  function Reversed(s: seq<nat>, i: nat, j: nat): (r: seq<nat>)
    requires i <= j < |s|
    ensures |r| == |s|
    ensures forall n: nat :: Bounded(s, n) ==> Bounded(r, n)
  {
    seq(|s|, k requires 0 <= k < |s| => if i <= k <= j then s[i + j - k] else s[k])
  }

  /** The swap loop `for (k = i, l = j; k < l; k++, l--)` reverses the segment in place. */
  method ReverseRange(a: array<nat>, i: nat, j: nat)
    requires i <= j < a.Length
    modifies a
    ensures a[..] == Reversed(old(a[..]), i, j)
    ensures multiset(a[..]) == multiset(old(a[..]))
  {
    var k: int, l: int := i, j;
    while k < l
      invariant i <= k <= l + 1 && l <= j && k + l == i + j
      invariant forall m :: 0 <= m < a.Length ==>
        a[m] == if i <= m < k || l < m <= j then old(a[i + j - m]) else old(a[m])
      invariant multiset(a[..]) == multiset(old(a[..]))
    {
      a[k], a[l] := a[l], a[k];
      k, l := k + 1, l - 1;
    }
  }

  /** No single segment reversal makes the round trip strictly shorter. */
  ghost predicate TwoOptOptimal(d: seq<seq<real>>, s: seq<nat>)
    requires IsSquare(d) && Bounded(s, |d|) && |s| >= 1
  {
    forall i, j :: 0 <= i < j < |s| ==> ClosedLength(d, Reversed(s, i, j)) >= ClosedLength(d, s)
  }

  /** Every sequence of length `len` whose values are drawn from `elems`. */
  ghost function Arrangements(elems: set<nat>, len: nat): (r: set<seq<nat>>)
    ensures forall p :: p in r ==> |p| == len && forall k :: 0 <= k < |p| ==> p[k] in elems
  {
    if len == 0 then {[]}
    else set x, p | x in elems && p in Arrangements(elems, len - 1) :: [x] + p
  }

  lemma {:induction false} InArrangements(elems: set<nat>, p: seq<nat>)
    requires forall k :: 0 <= k < |p| ==> p[k] in elems
    ensures p in Arrangements(elems, |p|)
  {
    if p != [] {
      InArrangements(elems, p[1..]);
      assert p == [p[0]] + p[1..];
    }
  }

  /** The arrangements of the values of `tour` whose round trip is strictly shorter than that of `b`. */
  ghost function Shorter(d: seq<seq<real>>, tour: seq<nat>, b: seq<nat>): set<seq<nat>>
    requires IsSquare(d) && Bounded(tour, |d|) && |tour| >= 1 && Bounded(b, |d|) && |b| >= 1
  {
    set p | p in Arrangements(Elements(tour), |tour|) && (assert Bounded(p, |d|); ClosedLength(d, p) < ClosedLength(d, b))
  }

  lemma ShorterShrinks(d: seq<seq<real>>, tour: seq<nat>, a: seq<nat>, b: seq<nat>)
    requires IsSquare(d) && Bounded(tour, |d|) && |tour| >= 1
    requires Bounded(a, |d|) && |a| >= 1 && Bounded(b, |d|) && |b| >= 1
    requires a in Arrangements(Elements(tour), |tour|)
    requires ClosedLength(d, a) < ClosedLength(d, b)
    ensures Shorter(d, tour, a) < Shorter(d, tour, b)
  {
    assert a in Shorter(d, tour, b);
    assert a !in Shorter(d, tour, a);
  }

  lemma RearrangementInArrangements(tour: seq<nat>, s: seq<nat>)
    requires multiset(s) == multiset(tour)
    ensures s in Arrangements(Elements(tour), |tour|)
  {
    assert |s| == |multiset(s)| == |tour|;
    forall k | 0 <= k < |s| ensures s[k] in Elements(tour) {
      assert s[k] in multiset(s);
    }
    InArrangements(Elements(tour), s);
  }

  /** `newTour = [...bestTour]` followed by the in-place reversal of positions i..j. */
  method ReversedCopy(bestTour: seq<nat>, i: nat, j: nat) returns (newTour: seq<nat>)
    requires i <= j < |bestTour|
    ensures newTour == Reversed(bestTour, i, j)
    ensures multiset(newTour) == multiset(bestTour)
  {
    var copy := new nat[|bestTour|](k requires 0 <= k < |bestTour| => bestTour[k]);
    assert copy[..] == bestTour;
    ReverseRange(copy, i, j);
    newTour := copy[..];
  }

  /**
   * One sweep of `twoOptImprovement` over all pairs i < j, starting from
   * `start`. If it adopts nothing, `start` admits no improving reversal.
   */
  method Sweep(d: seq<seq<real>>, start: seq<nat>) returns (bestTour: seq<nat>, improved: bool)
    requires IsSquare(d) && Bounded(start, |d|) && |start| >= 1
    ensures |bestTour| == |start| && multiset(bestTour) == multiset(start) && Bounded(bestTour, |d|)
    ensures ClosedLength(d, bestTour) <= ClosedLength(d, start)
    ensures improved ==> ClosedLength(d, bestTour) < ClosedLength(d, start)
    ensures !improved ==> bestTour == start && TwoOptOptimal(d, start)
  {
    var n := |start|;
    improved := false;
    bestTour := start;
    for i := 0 to n - 1
      invariant |bestTour| == n && multiset(bestTour) == multiset(start) && Bounded(bestTour, |d|)
      invariant ClosedLength(d, bestTour) <= ClosedLength(d, start)
      invariant improved ==> ClosedLength(d, bestTour) < ClosedLength(d, start)
      invariant !improved ==> bestTour == start
      invariant !improved ==> forall p, q :: 0 <= p < i && p < q < n ==>
        ClosedLength(d, Reversed(start, p, q)) >= ClosedLength(d, start)
    {
      for j := i + 1 to n
        invariant |bestTour| == n && multiset(bestTour) == multiset(start) && Bounded(bestTour, |d|)
        invariant ClosedLength(d, bestTour) <= ClosedLength(d, start)
        invariant improved ==> ClosedLength(d, bestTour) < ClosedLength(d, start)
        invariant !improved ==> bestTour == start
        invariant !improved ==> forall p, q :: ((0 <= p < i && p < q < n) || (p == i && i < q < j)) ==>
          ClosedLength(d, Reversed(start, p, q)) >= ClosedLength(d, start)
      {
        var newTour := ReversedCopy(bestTour, i, j);
        var oldDistance := CalculateTourDistance(bestTour, d);
        var newDistance := CalculateTourDistance(newTour, d);
        if newDistance < oldDistance {
          bestTour := newTour;
          improved := true;
        }
      }
    }
  }

  /**
   * `twoOptImprovement`: sweep all segment reversals, adopting one whenever it
   * makes the round trip strictly shorter, until a sweep adopts none. The
   * result is a rearrangement of the input, no longer than it, and no single
   * reversal improves it. The loop terminates because each adopting sweep
   * leaves strictly fewer shorter arrangements.
   */
  method TwoOptImprovement(tour: seq<nat>, d: seq<seq<real>>) returns (bestTour: seq<nat>)
    requires IsSquare(d) && Bounded(tour, |d|)
    ensures |bestTour| == |tour| && multiset(bestTour) == multiset(tour) && Bounded(bestTour, |d|)
    ensures |tour| >= 1 ==> ClosedLength(d, bestTour) <= ClosedLength(d, tour)
    ensures |tour| >= 1 ==> TwoOptOptimal(d, bestTour)
  {
    var n := |tour|;
    bestTour := tour;
    if n == 0 {
      return;
    }
    var improved := true;
    RearrangementInArrangements(tour, tour);
    while improved
      invariant |bestTour| == n && multiset(bestTour) == multiset(tour) && Bounded(bestTour, |d|)
      invariant bestTour in Arrangements(Elements(tour), n)
      invariant ClosedLength(d, bestTour) <= ClosedLength(d, tour)
      invariant !improved ==> TwoOptOptimal(d, bestTour)
      decreases Shorter(d, tour, bestTour), improved
    {
      ghost var start := bestTour;
      bestTour, improved := Sweep(d, bestTour);
      RearrangementInArrangements(tour, bestTour);
      if improved {
        ShorterShrinks(d, tour, bestTour, start);
      }
    }
  }
}
