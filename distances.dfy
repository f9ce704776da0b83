/**
 * The distance model shared by every solver: the pairwise distance table over
 * a point list, path lengths over that table, and the `findIndex` lookup the
 * capacity solver uses to map points back to table rows.
 */
module Distances {
  import opened SeqFacts
  import opened RouteTypes

  /**
   * The great-circle distance from (lat1, lng1) to (lat2, lng2). Every solver
   * uses the Haversine formula here; the model takes it as a parameter.
   */
  type GeoDistance = (real, real, real, real) -> real

  ghost predicate NonNegative(h: GeoDistance) {
    forall lat1, lng1, lat2, lng2 :: h(lat1, lng1, lat2, lng2) >= 0.0
  }

  ghost predicate Symmetric(h: GeoDistance) {
    forall lat1, lng1, lat2, lng2 :: h(lat1, lng1, lat2, lng2) == h(lat2, lng2, lat1, lng1)
  }

  /** An n-by-n table: row i holds the distances from point i. */
  predicate IsSquare(d: seq<seq<real>>) {
    forall i :: 0 <= i < |d| ==> |d[i]| == |d|
  }

  predicate ZeroDiagonal(d: seq<seq<real>>)
    requires IsSquare(d)
  {
    forall i :: 0 <= i < |d| ==> d[i][i] == 0.0
  }

  predicate NonNegativeTable(d: seq<seq<real>>)
    requires IsSquare(d)
  {
    forall i, j :: 0 <= i < |d| && 0 <= j < |d| ==> d[i][j] >= 0.0
  }

  predicate SymmetricTable(d: seq<seq<real>>)
    requires IsSquare(d)
  {
    forall i, j :: 0 <= i < |d| && 0 <= j < |d| ==> d[i][j] == d[j][i]
  }

  /** Every pair of different points is a positive distance apart. */
  predicate PositiveOffDiagonal(d: seq<seq<real>>)
    requires IsSquare(d)
  {
    forall i, j :: 0 <= i < |d| && 0 <= j < |d| && i != j ==> d[i][j] > 0.0
  }

  /** One cell of the table: the distance between two different positions, 0 on the diagonal. */
  function Cell(points: seq<Bin>, h: GeoDistance, i: nat, j: nat): real
    requires i < |points| && j < |points|
  {
    if i != j then h(points[i].lat, points[i].lng, points[j].lat, points[j].lng) else 0.0
  }

  /** The distance table over `points`. */
  function Matrix(points: seq<Bin>, h: GeoDistance): (d: seq<seq<real>>)
    ensures |d| == |points| && IsSquare(d)
  {
    seq(|points|, i requires 0 <= i < |points| =>
      seq(|points|, j requires 0 <= j < |points| => Cell(points, h, i, j)))
  }

  /**
   * The table has a zero diagonal whatever the distance function, because the
   * diagonal is never written; it is non-negative and symmetric when the
   * distance function is.
   */
  lemma MatrixProperties(points: seq<Bin>, h: GeoDistance)
    ensures ZeroDiagonal(Matrix(points, h))
    ensures NonNegative(h) ==> NonNegativeTable(Matrix(points, h))
    ensures Symmetric(h) ==> SymmetricTable(Matrix(points, h))
  {
  }

  /** The nested loop that fills the table, writing only off-diagonal cells. */
  method CalculateDistanceMatrix(points: seq<Bin>, h: GeoDistance) returns (d: seq<seq<real>>)
    ensures d == Matrix(points, h)
  {
    var n := |points|;
    var table := new real[n, n]((i, j) => 0.0);
    for i := 0 to n
      invariant forall r, c :: 0 <= r < i && 0 <= c < n ==> table[r, c] == Cell(points, h, r, c)
      invariant forall r, c :: i <= r < n && 0 <= c < n ==> table[r, c] == 0.0
    {
      for j := 0 to n
        invariant forall r, c :: 0 <= r < i && 0 <= c < n ==> table[r, c] == Cell(points, h, r, c)
        invariant forall c :: 0 <= c < j ==> table[i, c] == Cell(points, h, i, c)
        invariant forall c :: j <= c < n ==> table[i, c] == 0.0
        invariant forall r, c :: i < r < n && 0 <= c < n ==> table[r, c] == 0.0
      {
        if i != j {
          table[i, j] := h(points[i].lat, points[i].lng, points[j].lat, points[j].lng);
        }
      }
    }
    d := seq(n, i requires 0 <= i < n reads table => seq(n, j requires 0 <= j < n reads table => table[i, j]));
    forall i | 0 <= i < n ensures d[i] == Matrix(points, h)[i] {
      assert forall j :: 0 <= j < n ==> d[i][j] == Matrix(points, h)[i][j];
    }
  }

  /** The length of the open path `t`: the sum of its consecutive edges, with no closing edge. */
  function OpenLength(d: seq<seq<real>>, t: seq<nat>): real
    requires IsSquare(d) && Bounded(t, |d|)
    decreases |t|
  {
    if |t| <= 1 then 0.0
    else OpenLength(d, t[..|t| - 1]) + d[t[|t| - 2]][t[|t| - 1]]
  }

  /** The length of the round trip `t`: its open length plus the edge from the last point back to the first. */
  function ClosedLength(d: seq<seq<real>>, t: seq<nat>): real
    requires IsSquare(d) && Bounded(t, |d|) && |t| >= 1
  {
    OpenLength(d, t) + d[t[|t| - 1]][t[0]]
  }

  /** Prepending a point adds the edge to the old first point. */
  lemma {:induction false} OpenLengthCons(d: seq<seq<real>>, a: nat, t: seq<nat>)
    requires IsSquare(d) && Bounded(t, |d|) && a < |d| && |t| >= 1
    ensures Bounded([a] + t, |d|)
    ensures OpenLength(d, [a] + t) == d[a][t[0]] + OpenLength(d, t)
    decreases |t|
  {
    if |t| > 1 {
      var init := t[..|t| - 1];
      assert ([a] + t)[..|t|] == [a] + init;
      OpenLengthCons(d, a, init);
    }
  }

  lemma {:induction false} OpenLengthNonNegative(d: seq<seq<real>>, t: seq<nat>)
    requires IsSquare(d) && Bounded(t, |d|) && NonNegativeTable(d)
    ensures OpenLength(d, t) >= 0.0
    decreases |t|
  {
    if |t| > 1 {
      OpenLengthNonNegative(d, t[..|t| - 1]);
    }
  }

  /**
   * The accumulator loop `for i < t.length - 1: total += d[t[i]][t[i + 1]]`
   * computes the open length.
   */
  method SumConsecutiveEdges(d: seq<seq<real>>, t: seq<nat>) returns (total: real)
    requires IsSquare(d) && Bounded(t, |d|)
    ensures total == OpenLength(d, t)
  {
    total := 0.0;
    if |t| == 0 {
      return;
    }
    for i := 0 to |t| - 1
      invariant total == OpenLength(d, t[..i + 1])
    {
      assert t[..i + 2][..i + 1] == t[..i + 1];
      total := total + d[t[i]][t[i + 1]];
    }
    assert t[..|t|] == t;
  }

  /** A path that visits every position of `points` shows every point. */
  lemma PathCoversPoints(points: seq<Bin>, tour: seq<nat>)
    requires Bounded(tour, |points|)
    requires forall k: nat :: k < |points| ==> k in tour
    ensures forall k :: 0 <= k < |points| ==> points[k] in Gather(points, tour)
  {
    forall k: nat | k < |points| ensures points[k] in Gather(points, tour) {
      assert k in tour;
      var m :| 0 <= m < |tour| && tour[m] == k;
      assert Gather(points, tour)[m] == points[k];
    }
  }

  /**
   * A route over `[start, ...middle, end]` that visits every position once
   * has one point per position and shows every bin of `middle` and the end.
   */
  lemma CoveringRouteShowsAll(points: seq<Bin>, start: Coordinates, middle: seq<Bin>, end: Coordinates, order: seq<nat>)
    requires points == Waypoints(start, middle, end)
    requires Distinct(order) && Bounded(order, |points|) && forall k: nat :: k < |points| ==> k in order
    ensures |Gather(points, order)| == |middle| + 2
    ensures forall b :: b in middle ==> b in Gather(points, order)
    ensures EndPoint(end) in Gather(points, order)
  {
    var path := Gather(points, order);
    CoveringLength(order, |points|);
    PathCoversPoints(points, order);
    forall b | b in middle ensures b in path {
      var k :| 0 <= k < |middle| && middle[k] == b;
      assert points[k + 1] == b;
    }
    assert points[|points| - 1] == EndPoint(end);
  }

  /** JavaScript's `findIndex` on the id: the first position holding `id`, or -1. */
  function FindIndex(points: seq<Bin>, id: string): (r: int)
    ensures -1 <= r < |points|
    ensures r >= 0 ==> points[r].id == id && forall k :: 0 <= k < r ==> points[k].id != id
    ensures r == -1 ==> forall k :: 0 <= k < |points| ==> points[k].id != id
  {
    if |points| == 0 then -1
    else if points[0].id == id then 0
    else
      var r := FindIndex(points[1..], id);
      if r == -1 then -1 else r + 1
  }

  /** Ids are unique within the point list. */
  predicate UniqueIds(points: seq<Bin>) {
    forall i, j :: 0 <= i < j < |points| ==> points[i].id != points[j].id
  }

  /** With unique ids, looking up a point's id finds that point's own position. */
  lemma FindIndexOfUnique(points: seq<Bin>, k: nat)
    requires UniqueIds(points) && k < |points|
    ensures FindIndex(points, points[k].id) == k
  {
  }
}
