/**
 * The shapes exchanged between the route service and the solvers: bins,
 * requests, responses, and the point list `[start, ...bins, end]` that every
 * solver builds from a request.
 */
module RouteTypes {

  /**
   * A waste bin. Waypoints of a route have the same shape: the synthetic start
   * and end points are bins with fill level 0. Fill levels are whole
   * percentages; coordinates are degrees.
   */
  datatype Bin = Bin(id: string, location: string, fillLevel: nat, lat: real, lng: real)

  datatype Coordinates = Coordinates(lat: real, lng: real)

  datatype RouteRequest = RouteRequest(
    algorithm: string,
    bins: seq<Bin>,
    truckCapacity: nat,
    startPoint: Coordinates,
    endPoint: Coordinates)

  datatype RouteResponse = RouteResponse(
    path: seq<Bin>,
    totalDistance: real,
    capacityUsed: nat,
    executionTime: int)

  datatype Error = UnknownAlgorithm(algorithm: string)

  datatype Result<T> = Ok(value: T) | Err(error: Error)

  function StartPoint(c: Coordinates): Bin {
    Bin("start", "Start Point", 0, c.lat, c.lng)
  }

  function EndPoint(c: Coordinates): Bin {
    Bin("end", "End Point", 0, c.lat, c.lng)
  }

  /** The point list every solver works on: index 0 is the start, the last index the end. */
  function Waypoints(start: Coordinates, middle: seq<Bin>, end: Coordinates): (ps: seq<Bin>)
    ensures |ps| == |middle| + 2
    ensures ps[0] == StartPoint(start) && ps[|ps| - 1] == EndPoint(end)
    ensures forall k :: 0 <= k < |middle| ==> ps[k + 1] == middle[k]
  {
    [StartPoint(start)] + middle + [EndPoint(end)]
  }

  /** The weight a bin adds to the truck: ten kilograms per percent of fill. */
  function BinWeight(b: Bin): nat {
    b.fillLevel * 10
  }

  /** The weight of every bin in `bins`, as the solvers' `reduce` adds it up. */
  function TotalWeight(bins: seq<Bin>): nat
  {
    if bins == [] then 0 else TotalWeight(bins[..|bins| - 1]) + BinWeight(bins[|bins| - 1])
  }
}
