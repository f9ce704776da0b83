/**
 * `RouteService.optimizeRoute`: pick the solver named by the request, run it,
 * and stamp the elapsed time on its answer.
 */
module RouteService {
  import opened RouteTypes
  import opened Distances
  import Dijkstra
  import Prim
  import Tsp
  import Knapsack

  /** The algorithm names the switch knows. */
  predicate Known(algorithm: string) {
    algorithm == "dijkstra" || algorithm == "prim" || algorithm == "tsp" || algorithm == "knapsack"
  }

  /** `response` is what the solver named by the request answers, before the time is stamped on it. */
  ghost predicate SolverAnswer(request: RouteRequest, h: GeoDistance, response: RouteResponse) {
    if request.algorithm == "dijkstra" then Dijkstra.DijkstraResponse(request, h, response)
    else if request.algorithm == "prim" then Prim.PrimResponse(request, h, response)
    else if request.algorithm == "tsp" then Tsp.TspResponse(request, h, response)
    else if request.algorithm == "knapsack" then Knapsack.KnapsackResponse(request, h, response)
    else false
  }

  /**
   * The dispatch. `elapsed` stands for `Date.now() - startTime` around the
   * simulated delay and the solver call. Known names run the matching solver
   * and overwrite only `executionTime`; any other name is an error and no
   * response is produced.
   */
  method OptimizeRoute(request: RouteRequest, h: GeoDistance, elapsed: int) returns (r: Result<RouteResponse>)
    ensures r.Err? <==> !Known(request.algorithm)
    ensures r.Err? ==> r.error == UnknownAlgorithm(request.algorithm)
    ensures r.Ok? ==> r.value.executionTime == elapsed
    ensures r.Ok? ==> SolverAnswer(request, h, r.value.(executionTime := 0))
  {
    var result: RouteResponse;
    if request.algorithm == "dijkstra" {
      result := Dijkstra.Solve(request, h);
    } else if request.algorithm == "prim" {
      result := Prim.Solve(request, h);
    } else if request.algorithm == "tsp" {
      result := Tsp.Solve(request, h);
    } else if request.algorithm == "knapsack" {
      result := Knapsack.Solve(request, h);
    } else {
      return Err(UnknownAlgorithm(request.algorithm));
    }
    assert result.(executionTime := 0) == result;
    result := result.(executionTime := elapsed);
    r := Ok(result);
  }

  /**
   * What the truck carries: the knapsack solver stays within capacity; every
   * other solver reports the weight of all bins, visited or not.
   */
  lemma AnswerCapacity(request: RouteRequest, h: GeoDistance, response: RouteResponse)
    requires SolverAnswer(request, h, response)
    ensures request.algorithm == "knapsack" ==> response.capacityUsed <= request.truckCapacity
    ensures request.algorithm != "knapsack" ==> response.capacityUsed == TotalWeight(request.bins)
  {
    if request.algorithm == "knapsack" {
      Knapsack.KnapsackCapacity(request, h, response);
    }
  }

  /** Every answer's route begins at the start point whenever the solver reaches anything beyond it. */
  lemma AnswerStartsAtStart(request: RouteRequest, h: GeoDistance, response: RouteResponse)
    requires SolverAnswer(request, h, response)
    requires request.algorithm != "dijkstra" ||
      Dijkstra.Reachable(Matrix(Waypoints(request.startPoint, request.bins, request.endPoint), h), 0, |request.bins| + 1)
    ensures |response.path| >= 1 && response.path[0] == StartPoint(request.startPoint)
  {
    if request.algorithm == "dijkstra" {
      Dijkstra.DijkstraResponseProperties(request, h, response);
    } else if request.algorithm == "prim" {
      Prim.PrimResponseProperties(request, h, response);
    } else if request.algorithm == "tsp" {
      Tsp.TspResponseProperties(request, h, response);
    } else {
      Knapsack.KnapsackPathVisits(request, h, response);
    }
  }

  /**
   * The time stamp is the only thing that varies between two calls on the
   * same request: path, distance and capacity agree for every solver.
   */
  lemma AnswerDeterministic(request: RouteRequest, h: GeoDistance, r1: RouteResponse, r2: RouteResponse)
    requires SolverAnswer(request, h, r1) && SolverAnswer(request, h, r2)
    ensures r1.path == r2.path && r1.totalDistance == r2.totalDistance && r1.capacityUsed == r2.capacityUsed
  {
    if request.algorithm == "dijkstra" {
      Dijkstra.DijkstraDeterministic(request, h, r1, r2);
    } else if request.algorithm == "prim" {
      Prim.PrimDeterministic(request, h, r1, r2);
    } else if request.algorithm == "tsp" {
      Tsp.TspDeterministic(request, h, r1, r2);
    } else {
      Knapsack.KnapsackDeterministic(request, h, r1, r2);
    }
  }
}
