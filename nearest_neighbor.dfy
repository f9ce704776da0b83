/**
 * The greedy nearest-neighbour ordering used by the tour solver
 * (`nearestNeighborTSP`) and, over the selected bins, by the capacity solver
 * (`nearestNeighborPath`): start at point 0 and repeatedly move to the closest
 * point not yet visited, preferring the lowest index among equally close ones.
 */
module NearestNeighbor {
  import opened SeqFacts
  import opened RouteTypes
  import opened Distances

  /**
   * `k` is the point one scan of `row` picks: not yet visited, no farther than
   * any other unvisited point, and strictly closer than every unvisited point
   * with a lower index (the scan only replaces its choice on a strict `<`).
   */
  predicate IsNearest(row: seq<real>, visited: seq<nat>, k: nat) {
    && k < |row| && k !in visited
    && (forall j: nat :: j < |row| && j !in visited ==> row[k] <= row[j])
    && (forall j: nat :: j < k && j !in visited ==> row[k] < row[j])
  }

  /** `tour` is the order the greedy loop visits the points of `d` in. */
  predicate IsGreedyTour(d: seq<seq<real>>, tour: seq<nat>)
    requires IsSquare(d)
  {
    && |d| > 0 && |tour| == |d| && Bounded(tour, |d|) && tour[0] == 0
    && forall k :: 1 <= k < |tour| ==> IsNearest(d[tour[k - 1]], tour[..k], tour[k])
  }

  /** At most one point satisfies the scan's choice rule. */
  lemma NearestUnique(row: seq<real>, visited: seq<nat>, a: nat, b: nat)
    requires IsNearest(row, visited, a) && IsNearest(row, visited, b)
    ensures a == b
  {
  }

  /** A sequence each of whose elements is new when it is appended has no repeats. */
  lemma FreshStepsDistinct(d: seq<seq<real>>, t: seq<nat>)
    requires IsSquare(d) && Bounded(t, |d|) && GreedySteps(d, t)
    ensures Distinct(t)
  {
    forall i, j | 0 <= i < j < |t| ensures t[i] != t[j] {
      assert IsNearest(d[t[j - 1]], t[..j], t[j]);
      assert t[..j][i] == t[i];
      assert t[i] in t[..j];
    }
  }

  /**
   * The inner scan `for j: if (!visited[j] && distances[current][j] < minDistance)`.
   * While nothing is chosen, `minDistance` is `Infinity`, which every distance
   * is below; the model expresses that with `nearest == -1`.
   */
  method FindNearest(row: seq<real>, visited: array<bool>, ghost tour: seq<nat>) returns (nearest: int)
    requires visited.Length == |row|
    requires forall j: nat :: j < |row| ==> (visited[j] <==> j in tour)
    ensures nearest == -1 <==> forall j: nat :: j < |row| ==> j in tour
    ensures nearest != -1 ==> 0 <= nearest && IsNearest(row, tour, nearest)
  {
    nearest := -1;
    var minDistance := 0.0;
    for j := 0 to |row|
      invariant nearest == -1 ==> forall m: nat :: m < j ==> m in tour
      invariant nearest != -1 ==> 0 <= nearest < j && nearest !in tour && minDistance == row[nearest]
      invariant nearest != -1 ==> forall m: nat :: m < j && m !in tour ==> row[nearest] <= row[m]
      invariant nearest != -1 ==> forall m: nat :: m < nearest && m !in tour ==> row[nearest] < row[m]
    {
      if !visited[j] && (nearest == -1 || row[j] < minDistance) {
        minDistance := row[j];
        nearest := j;
      }
    }
  }

  /**
   * The greedy loop: mark point 0, then n - 1 times move to the nearest
   * unvisited point. For an empty table the source still returns `[0]`.
   */
  method NearestNeighborTour(d: seq<seq<real>>) returns (tour: seq<nat>)
    requires IsSquare(d)
    ensures |d| == 0 ==> tour == [0]
    ensures |d| > 0 ==> IsGreedyTour(d, tour)
  {
    var n := |d|;
    var visited := new bool[n](_ => false);
    var current := 0;
    tour := [current];
    if n == 0 {
      return;
    }
    visited[current] := true;
    for i := 0 to n - 1
      invariant |tour| == i + 1 && tour[0] == 0 && current == tour[i]
      invariant Bounded(tour, n) && GreedySteps(d, tour)
      invariant forall j: nat :: j < n ==> (visited[j] <==> j in tour)
    {
      FreshStepsDistinct(d, tour);
      var unvisited := MissingIndex(tour, n);
      var nearest := FindNearest(d[current], visited, tour);
      if nearest != -1 {
        visited[nearest] := true;
        GreedyStep(d, tour, nearest);
        tour := tour + [nearest];
        current := nearest;
      }
    }
  }

  /** Each point of `t` after the first is the scan's choice from the point before it. */
  predicate GreedySteps(d: seq<seq<real>>, t: seq<nat>)
    requires IsSquare(d) && Bounded(t, |d|)
  {
    forall k :: 1 <= k < |t| ==> IsNearest(d[t[k - 1]], t[..k], t[k])
  }

  /** Appending the scan's choice from the last point keeps every step greedy. */
  lemma GreedyStep(d: seq<seq<real>>, t: seq<nat>, next: nat)
    requires IsSquare(d) && Bounded(t, |d|) && |t| >= 1 && GreedySteps(d, t)
    requires IsNearest(d[t[|t| - 1]], t, next)
    ensures Bounded(t + [next], |d|) && GreedySteps(d, t + [next])
  {
    var t' := t + [next];
    assert t'[..|t|] == t;
    forall k | 1 <= k < |t'| ensures IsNearest(d[t'[k - 1]], t'[..k], t'[k]) {
      if k < |t| {
        assert t'[..k] == t[..k];
      }
    }
  }

  /** The greedy order visits every point exactly once. */
  lemma GreedyTourIsPermutation(d: seq<seq<real>>, tour: seq<nat>)
    requires IsSquare(d) && IsGreedyTour(d, tour)
    ensures Distinct(tour)
    ensures forall k: nat :: k < |d| ==> k in tour
  {
    FreshStepsDistinct(d, tour);
    Covers(tour, |d|);
  }

  /** The greedy order is determined by the table: two runs give the same tour. */
  lemma GreedyTourUnique(d: seq<seq<real>>, t1: seq<nat>, t2: seq<nat>)
    requires IsSquare(d) && IsGreedyTour(d, t1) && IsGreedyTour(d, t2)
    ensures t1 == t2
  {
    GreedyPrefixesAgree(d, t1, t2, |d|);
    assert t1 == t1[..|d|] && t2 == t2[..|d|];
  }

  lemma {:induction false} GreedyPrefixesAgree(d: seq<seq<real>>, t1: seq<nat>, t2: seq<nat>, k: nat)
    requires IsSquare(d) && IsGreedyTour(d, t1) && IsGreedyTour(d, t2)
    requires 1 <= k <= |d|
    ensures t1[..k] == t2[..k]
  {
    if k > 1 {
      GreedyPrefixesAgree(d, t1, t2, k - 1);
      assert t1[..k - 1][k - 2] == t2[..k - 1][k - 2];
      NearestUnique(d[t1[k - 2]], t1[..k - 1], t1[k - 1], t2[k - 1]);
      assert t1[..k] == t1[..k - 1] + [t1[k - 1]];
      assert t2[..k] == t2[..k - 1] + [t2[k - 1]];
    }
  }

  /**
   * Ordered greedily, the route over `[start, ...middle, end]` begins at the
   * start point, shows every bin of `middle` and the end point, and shows
   * nothing else.
   */
  lemma GreedyRouteVisitsAll(points: seq<Bin>, start: Coordinates, middle: seq<Bin>, end: Coordinates, h: GeoDistance, tour: seq<nat>)
    requires points == Waypoints(start, middle, end)
    requires IsGreedyTour(Matrix(points, h), tour)
    ensures Bounded(tour, |points|)
    ensures |Gather(points, tour)| == |middle| + 2
    ensures Gather(points, tour)[0] == StartPoint(start)
    ensures forall b :: b in middle ==> b in Gather(points, tour)
    ensures EndPoint(end) in Gather(points, tour)
    ensures forall b :: b in Gather(points, tour) ==> b == StartPoint(start) || b == EndPoint(end) || b in middle
    ensures multiset(Gather(points, tour)) == multiset(points)
  {
    var d := Matrix(points, h);
    var path := Gather(points, tour);
    GreedyTourIsPermutation(d, tour);
    PathCoversPoints(points, tour);
    GatherPermutation(points, tour);
    assert path[0] == points[0];
    forall b | b in middle ensures b in path {
      var k :| 0 <= k < |middle| && middle[k] == b;
      assert points[k + 1] == b;
    }
    assert points[|points| - 1] == EndPoint(end);
    forall b | b in path ensures b == StartPoint(start) || b == EndPoint(end) || b in middle {
      var m :| 0 <= m < |path| && path[m] == b;
      var p := tour[m];
      assert b == points[p];
      if 0 < p < |points| - 1 {
        assert b == middle[p - 1];
      }
    }
  }
}
