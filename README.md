# Waste-collection route optimisation, modelled in Dafny

The system plans a truck's route through a set of waste bins. A route request names:

- one of four algorithms;
- the bins, each with an id, a location name, a fill level in percent and coordinates;
- the truck's capacity;
- a start point and an end point.

Every solver works on the point list `[start, ...bins, end]` and its pairwise distance table. The four solvers are:

- **dijkstra**: the shortest path from the start to the end over the table, read back along predecessor pointers.
- **prim**: a spanning tree grown from the start, reported as a depth-first walk of the tree. Its distance is the tree's weight.
- **tsp**: a nearest-neighbour tour over all points, reported as an open path but measured as a round trip. The file also holds a 2-opt refinement that the solver never calls.
- **knapsack**: a 0/1 knapsack chooses the bins worth collecting within the truck's capacity. The chosen bins are then ordered by the nearest-neighbour rule.

The service `optimizeRoute` switches on the algorithm name, rejects unknown names, and stamps the elapsed time on the solver's answer.

The model keeps each solver's own form.

- Loops that fill arrays are methods over Dafny arrays, proved against value-level specifications: the distance table, the knapsack table, the Prim and Dijkstra scans, and the 2-opt segment reversal.
- The recursive depth-first traversal is a class. Its `visited` array and `path` are updated in place by a recursive `Visit` method (its neighbour loop is `Neighbors`, one turn of it `Step`), proved to record exactly what the mutually recursive reference functions `DfsFrom` and `DfsList` define.
- Every solver's `Solve` method ensures a response predicate. Lemmas then derive what the source promises from that predicate: which points a route visits, where it starts, the distance and capacity rules, optimality where the algorithm gives it, and determinism.

Files: `seq_facts.dfy` (sequence helpers), `route_types.dfy` (request, response, bins, point list), `distances.dfy` (distance table and path lengths), `nearest_neighbor.dfy`, `tsp.dfy`, `knapsack.dfy`, `prim.dfy`, `dijkstra.dfy`, `route_service.dfy`.

The great-circle distance is a parameter `h` of type `Distances.GeoDistance`. Nothing is assumed about it except where a lemma says so: `NonNegative(h)`, `Symmetric(h)`, or a table whose off-diagonal entries are all positive (`PositiveOffDiagonal`). Distances are Dafny `real`s. JavaScript's `Infinity` sentinel is modelled in two ways:

- in the nearest-neighbour and Prim scans, by a `-1` "nothing chosen yet" index;
- in Dijkstra, by the datatype `Dist = Fin(value) | Inf`.

## Model

| member | source | states |
|---|---|---|
| RouteTypes.Waypoints | src/algorithms/tsp.ts:9-13 | the point list is start, then the bins in order, then end; its length is the number of bins plus two |
| Distances.CalculateDistanceMatrix | src/algorithms/tsp.ts:44-60 | the nested loop fills the n-by-n table with `h` between different points and leaves 0 on the diagonal |
| Distances.MatrixProperties | src/algorithms/tsp.ts:44-60 | the table's diagonal is 0 for any `h`; the table is non-negative and symmetric when `h` is |
| Distances.SumConsecutiveEdges | src/algorithms/dijkstra.ts:25-28 | the accumulator loop computes the open length of an index path, with no closing edge |
| Distances.OpenLengthNonNegative | src/algorithms/dijkstra.ts:25-28 | with a non-negative table, an open length is never negative |
| Distances.FindIndex | src/algorithms/knapsack.ts:32-33 | `findIndex` on the id gives the first position holding that id, or -1 when there is none |
| Distances.FindIndexOfUnique | src/algorithms/knapsack.ts:32-33 | with unique ids, looking up a point's id finds that point's own position |
| Distances.PathCoversPoints | src/algorithms/tsp.ts:22 | mapping an index path that visits every position through the point list shows every point |
| NearestNeighbor.FindNearest | src/algorithms/tsp.ts:89-97 | the scan returns -1 exactly when every point is visited; otherwise it returns an unvisited point no farther than any other unvisited point and strictly closer than every unvisited point with a lower index |
| NearestNeighbor.NearestNeighborTour | src/algorithms/tsp.ts:77-107 | the loop produces the greedy tour: it starts at 0, has n points, and each next point is the nearest unvisited one from the previous point, with the lowest index winning ties |
| NearestNeighbor.NearestUnique | src/algorithms/tsp.ts:92-97 | the choice rule picks at most one point |
| NearestNeighbor.GreedyTourIsPermutation | src/algorithms/tsp.ts:88-104 | the greedy tour visits every point exactly once |
| NearestNeighbor.GreedyTourUnique | src/algorithms/tsp.ts:77-107 | the greedy tour is determined by the table |
| NearestNeighbor.GreedyRouteVisitsAll | src/algorithms/knapsack.ts:139-169 | over `[start, ...middle, end]` the greedy route begins at the start, shows every bin of `middle` and the end, and nothing else, each exactly as often as `[start, ...middle, end]` holds it |
| Tsp.Solve | src/algorithms/tsp.ts:5-42 | the answer is the greedy tour mapped to points, its round-trip length, the weight of all bins, and execution time 0 |
| Tsp.TspResponseProperties | src/algorithms/tsp.ts:5-42 | the path has every bin plus start and end, begins at the start, and holds exactly those points, each exactly as often as the request does. Its length is non-negative when distances are |
| Tsp.TspDeterministic | src/algorithms/tsp.ts:5-42 | two answers to one request agree in path, distance and capacity |
| Tsp.CalculateTourDistance | src/algorithms/tsp.ts:143-150 | the result is the round-trip length, the same function the solver's total is stated with |
| Tsp.Reversed | src/algorithms/tsp.ts:123-126 | reversing a segment keeps the length and keeps every index in range |
| Tsp.ReverseRange | src/algorithms/tsp.ts:124-126 | the in-place swap loop reverses positions i..j and is a permutation of the array |
| Tsp.ReversedCopy | src/algorithms/tsp.ts:121-126 | the copied tour with the segment reversed, a permutation of the original |
| Tsp.Sweep | src/algorithms/tsp.ts:118-137 | one pass over all pairs i < j keeps a permutation and never lengthens the round trip. It reports an improvement only when the trip got strictly shorter. Without one, the tour is unchanged and no single reversal shortens it |
| Tsp.TwoOptImprovement | src/algorithms/tsp.ts:110-141 | the result is a permutation of the input and no longer than it, and no single segment reversal makes it shorter. Termination is proved by a decreasing set of shorter arrangements |
| Knapsack.LowerChar | src/algorithms/knapsack.ts:56-58 | `toLowerCase` maps A-Z to a-z and keeps every other character |
| Knapsack.Includes | src/algorithms/knapsack.ts:56-58 | `includes` is true exactly when the substring occurs at some position |
| Knapsack.BinValueBounds | src/algorithms/knapsack.ts:48-70 | a bin's value is between twice its fill level and that plus 150. It is at least 100 more from 90% fill. It equals twice the fill level exactly when the location is not busy and the fill is below 75% |
| Knapsack.BinValueMonotone | src/algorithms/knapsack.ts:48-70 | in the same location, a fuller bin is worth at least as much |
| Knapsack.Items | src/algorithms/knapsack.ts:9-13 | each bin becomes an item of weight `fillLevel * 10` and the value above |
| Knapsack.BacktrackSound | src/algorithms/knapsack.ts:92-103 | on the table as written, the backtracked positions descend (no item twice), fit the capacity, and are worth exactly `dp[i][w]` |
| Knapsack.TableOptimal | src/algorithms/knapsack.ts:74-90 | when every weight is positive, the table as written is optimal: no subset that fits is worth more than `dp[i][w]` |
| Knapsack.ForcedColumnMissesZeroWeightBin | src/algorithms/knapsack.ts:79-80 | with an empty bin in a busy location and a bin that fills the truck exactly, the table as written offers 50, while a fitting subset is worth 52 |
| Knapsack.SelectionsDiffer | src/algorithms/knapsack.ts:92-103 | on the example bins the two backtrackings part: at capacity 10 the code as written takes `a` alone where the corrected one takes `b` then `a`; at capacity 0 the code takes nothing where the corrected one takes `a` |
| Knapsack.FixedBacktrackSound | src/algorithms/knapsack.ts:92-103 | on the corrected table, the backtracked positions descend, fit the capacity, and are worth exactly the table entry |
| Knapsack.FixedTableOptimal | src/algorithms/knapsack.ts:74-90 | the corrected table is optimal for every weight, zero included |
| Knapsack.TablesAgreeOnPositiveWeights | src/algorithms/knapsack.ts:79-80 | when every weight is positive, the table as written and the corrected one are equal |
| Knapsack.BacktracksAgreeOnPositiveWeights | src/algorithms/knapsack.ts:96-101 | when every weight is positive, the two backtrackings choose the same positions |
| Knapsack.FillTable | src/algorithms/knapsack.ts:74-90 | the nested loop fills every cell of the (n+1) by (capacity+1) array with the corrected table entry: row 0 is 0, but column 0 is not forced to 0 as the code does |
| Knapsack.TableCell | src/algorithms/knapsack.ts:79-88 | one cell is computed from the row above by the corrected rule, without the code's `w === 0` shortcut |
| Knapsack.SelectItems | src/algorithms/knapsack.ts:72-104 | the loop returns the items at the corrected backtrack's positions, in the order the backtrack pushes them; it runs down to row 0 rather than stopping at capacity 0 |
| Knapsack.PickSums | src/algorithms/knapsack.ts:38 | the `reduce` over the picked items adds up exactly the selection's weight (and value) |
| Knapsack.PathDistance | src/algorithms/knapsack.ts:30-35 | the distance loop computes the open length over the table rows found by id |
| Knapsack.IdRowsOfUnique | src/algorithms/knapsack.ts:32-33 | with unique ids, the rows found by id are the tour's own positions |
| Knapsack.Solve | src/algorithms/knapsack.ts:5-46 | the answer is the greedy route over start, the bins of the corrected selection and end, its length by id lookup, the chosen bins' weight, and execution time 0 |
| Knapsack.KnapsackCapacity | src/algorithms/knapsack.ts:38 | the capacity used is at most the truck's capacity |
| Knapsack.KnapsackPathVisits | src/algorithms/knapsack.ts:19-27 | the path has the chosen bins plus start and end, begins at the start, and holds exactly those points, each exactly as often as start, chosen bins and end do |
| Knapsack.ChosenFromRequest | src/algorithms/knapsack.ts:96-101 | every chosen bin is a requested bin; the chosen positions strictly descend, so no bin is chosen twice and they come out in reverse input order |
| Knapsack.ChosenIsOptimal | src/algorithms/knapsack.ts:72-104 | no subset of the bins that fits the truck is worth more than the bins of the corrected selection |
| Knapsack.ChosenAsWritten | src/algorithms/knapsack.ts:72-104 | when every bin holds something, the chosen bins are exactly those the code as written chooses |
| Knapsack.KnapsackDistance | src/algorithms/knapsack.ts:30-35 | with unique ids, the distance is the open length of the greedy order; it is non-negative when distances are |
| Knapsack.KnapsackDeterministic | src/algorithms/knapsack.ts:5-46 | two answers to one request agree in path, distance and capacity |
| Prim.FindMinEdge | src/algorithms/prim.ts:80-95 | the scan finds no edge exactly when no positive edge leaves the visited set. Otherwise it finds the first minimum-weight positive edge from a visited to an unvisited point in ascending (u, v) order |
| Prim.FirstMinEdgeUnique | src/algorithms/prim.ts:85-95 | that choice rule picks at most one edge |
| Prim.PrimTree | src/algorithms/prim.ts:71-104 | for a non-empty table the loop returns Prim's tree: at most n-1 edges, each the scan's choice from the points reached so far, and the loop stops adding edges only when no positive edge leaves the reached set |
| Prim.PrimTreeShape | src/algorithms/prim.ts:77-101 | every edge joins a reached point to a new one; its weight is positive and is the table entry; no edge enters 0; all edges enter different points; the tree reaches one more point than it has edges |
| Prim.PrimSpans | src/algorithms/prim.ts:79-101 | when all distinct points are a positive distance apart, the tree has n-1 edges and reaches every point |
| Prim.PrimTreeUnique | src/algorithms/prim.ts:71-104 | the tree is determined by the table |
| Prim.TreeWeightPositive | src/algorithms/prim.ts:25 | the tree's weight is non-negative, and positive when it has an edge |
| Prim.AdjacencyJoins | src/algorithms/prim.ts:108-114 | in the adjacency lists, v is a neighbour of u exactly when some tree edge joins them in either direction |
| Prim.BuildAdjacency | src/algorithms/prim.ts:108-114 | the `forEach` that pushes both ends produces those adjacency lists |
| Prim.DepthFirst.constructor | src/algorithms/prim.ts:117-118 | the traversal starts with nothing visited and an empty path |
| Prim.DepthFirst.Visit | src/algorithms/prim.ts:120-129 | a call leaves exactly the path the reference `DfsFrom` records: `node`, then the depth-first visit of each not yet visited neighbour in list order. `visited` still marks exactly the points of the path |
| Prim.DepthFirst.Neighbors | src/algorithms/prim.ts:124-128 | the `forEach` over `node`'s list extends the path exactly as the reference `DfsList` does from the first neighbour on, and `visited` keeps marking exactly the path |
| Prim.DepthFirst.Step | src/algorithms/prim.ts:124-128 | one neighbour: when it is marked the path is unchanged, otherwise it grows by that neighbour's `DfsFrom` visit; the old path stays its prefix |
| Prim.DepthFirstOrder | src/algorithms/prim.ts:117-131 | `dfs(0)` on fresh state yields exactly `DfsOrder(adj)`, the recursion's pre-order, and that order is a depth-first order as below |
| Prim.DfsOrderIsDfs | src/algorithms/prim.ts:117-131 | the pre-order starts at 0, repeats no point, holds exactly the points reachable from 0, and each point after the first is a neighbour of an earlier one |
| Prim.DfsPreOrderExample | src/algorithms/prim.ts:120-129 | on the lists [[1, 2], [0, 3], [0], [1]] the order is [0, 1, 3, 2]: the recursion goes down to 3 before it turns to 2, unlike the breadth-first [0, 1, 2, 3] |
| Prim.MstToPath | src/algorithms/prim.ts:106-134 | the path is the pre-order `DfsOrder` of the tree's adjacency lists, mapped to points |
| Prim.TreeReach | src/algorithms/prim.ts:106-131 | a point is reachable from 0 along tree edges exactly when the tree reaches it |
| Prim.Solve | src/algorithms/prim.ts:5-36 | the answer is the pre-order `DfsOrder` of Prim's tree's adjacency lists mapped to points, the tree's weight, the weight of all bins, and execution time 0 |
| Prim.PrimResponseProperties | src/algorithms/prim.ts:5-36 | the path begins at the start, has between 1 and bins+2 points taken from start, bins and end, none more often than the request holds it, and a non-negative distance. When all distinct points are a positive distance apart, it has every bin and the end and a positive distance |
| Prim.PrimDeterministic | src/algorithms/prim.ts:5-36 | two answers to one request agree in path, distance and capacity |
| Dijkstra.RelaxNeverIncreases | src/algorithms/dijkstra.ts:93-101 | relaxation never raises a tentative distance; it changes a point's entries only when the point is unvisited and reached from `u` by a positive edge, and then records `u` as its predecessor |
| Dijkstra.SelectedUnique | src/algorithms/dijkstra.ts:84-88 | the selection rule, the lowest-index unvisited point of minimum distance, picks at most one point |
| Dijkstra.SelectMin | src/algorithms/dijkstra.ts:83-90 | the scan returns -1 exactly when every point is visited, and otherwise the selected point |
| Dijkstra.RelaxFrom | src/algorithms/dijkstra.ts:93-101 | the loop leaves the arrays equal to the relaxation from `u` of their old contents |
| Dijkstra.SelectedIsShortest | src/algorithms/dijkstra.ts:82-101 | under the loop invariant, the tentative distance of the point selected next is no longer than any positive walk from the start to it (that a walk attains it follows from the predecessor facts, in `Dijkstra.DijkstraPathProperties`) |
| Dijkstra.TraceInvariant | src/algorithms/dijkstra.ts:82-102 | along any partial run, the start is selected first and keeps no predecessor. Every predecessor was visited before its point. Every visited point's distance is no longer than any positive walk to it. The arrays stay consistent |
| Dijkstra.TraceUnique | src/algorithms/dijkstra.ts:82-102 | the visiting order of a complete run is determined by the table and the start |
| Dijkstra.ShortestPathTree | src/algorithms/dijkstra.ts:75-102 | the main loop performs a complete run and returns that run's predecessor array |
| Dijkstra.ReadBack | src/algorithms/dijkstra.ts:105-111 | the `unshift` loop terminates and returns the predecessor chain that ends at `end` and begins at a point without predecessor |
| Dijkstra.PrevChainUnique | src/algorithms/dijkstra.ts:105-111 | at most one predecessor chain leads back from a point |
| Dijkstra.DijkstraPath | src/algorithms/dijkstra.ts:74-113 | the result is the predecessor chain of `end` after a complete run from `start` |
| Dijkstra.DijkstraPathProperties | src/algorithms/dijkstra.ts:74-113 | the path ends at `end` and repeats no point. When a positive walk connects start and end, the path begins at the start, is a positive walk, and is no longer than any such walk. Otherwise the path is `[end]` |
| Dijkstra.Solve | src/algorithms/dijkstra.ts:5-39 | the answer is that path mapped to points, the sum of its edges, the weight of all bins, and execution time 0 |
| Dijkstra.DijkstraResponseProperties | src/algorithms/dijkstra.ts:5-39 | the path has 1 to bins+2 points and ends at the end point. When the end is reachable, it starts at the start and its distance is shortest among positive walks. When unreachable, it is the end point alone with distance 0. When all distinct points are a positive distance apart, the distance is at most the direct one |
| Dijkstra.DijkstraDeterministic | src/algorithms/dijkstra.ts:5-39 | two answers to one request agree in path, distance and capacity |
| RouteService.OptimizeRoute | src/services/routeService.ts:31-60 | the call fails with `UnknownAlgorithm` exactly when the name is none of the four. Otherwise the answer is the named solver's answer with only `executionTime` replaced by the elapsed time |
| RouteService.AnswerCapacity | src/services/routeService.ts:39-51 | through the dispatcher, the knapsack answer stays within capacity and every other answer reports the weight of all bins |
| RouteService.AnswerStartsAtStart | src/services/routeService.ts:39-51 | every dispatched answer's path begins at the start point, for dijkstra only when the end is reachable |
| RouteService.AnswerDeterministic | src/services/routeService.ts:39-59 | apart from the time stamp, two answers to one request agree in path, distance and capacity, for every solver |

## Left out

- The Haversine formula and `toRadians` are floating-point trigonometry. They are replaced by the distance parameter `h`. Distances and sums are exact reals, not IEEE doubles.
- The simulated two-second delay and `Date.now()` are timers. The elapsed time is the parameter `elapsed` of `RouteService.OptimizeRoute`. The asynchronous `await` calls are modelled as plain calls.
- The dispatcher throws a JavaScript exception on an unknown algorithm. The model returns `Err(UnknownAlgorithm(name))` instead.
- `src/services/binService.ts`, the React pages and components, and the canvas utilities are not part of this model: they are a random mock predictor and user interface code.
- Parsing the capacity from user input is not modelled. `truckCapacity` and `fillLevel` are natural numbers, so fractional or negative values are not modelled.
- Knapsack.LowerChar: `toLowerCase` is modelled on ASCII letters only. Other characters are kept unchanged.
- Knapsack.Solve: the path entries of the source also carry the extra `weight` and `value` fields added by the item map. The model reports the bins themselves.
- Knapsack.FillTable: fills the corrected table (see Findings), not the code's table with column 0 forced to 0. The two tables are equal when every bin has a positive fill level (`Knapsack.TablesAgreeOnPositiveWeights`).
- Knapsack.TableCell: computes the corrected cell rule; the code's `w === 0` branch giving 0 is left out, so the cells differ where a zero-weight bin is worth something (`Knapsack.ForcedColumnMissesZeroWeightBin`).
- Knapsack.SelectItems: follows the corrected backtrack, which runs down to row 0 instead of stopping once the capacity left is 0. The two choose the same bins whenever every bin has a positive fill level (`Knapsack.ChosenAsWritten`). They differ on the example bins (`Knapsack.SelectionsDiffer`).
- Knapsack.Chosen: the bins of the corrected backtrack (`FixedBacktrack`), not of the code's `Backtrack`. On the example bins at capacity 10 it gives `b` then `a` where the code gives `a` alone (`Knapsack.SelectionsDiffer`).
- Knapsack.Solve: answers with the corrected selection. For bins `a` ("main", fill 0) then `b` (fill 1) and capacity 10, the code's route is start, `a`, end with capacity used 0; the model's route visits `b` and `a` with capacity used 10. For `a` alone and capacity 0, the code visits no bin and the model visits `a`. `RouteService.OptimizeRoute` passes this answer on for "knapsack".
- Knapsack.ChosenIsOptimal: holds for the corrected selection only. The code's own selection is optimal when every bin has a positive fill level (`Knapsack.TableOptimal` with `Knapsack.ChosenAsWritten`), but not on the example bins.
- Prim.PrimTree: the tree is not proved to be of minimum weight. The contract states the greedy choice rule the code follows, tie-breaking included.
- Prim.MstToPath: requires a non-empty point list and in-range edges. Both always hold when `solve` calls it. The source's `dfs(0)` on an empty list is not modelled.
- Dijkstra.DijkstraPath: requires `start` and `end` to be points of the table. The source always passes 0 and n-1 for a list of at least two points.
- Dijkstra.DijkstraPathProperties: only walks over positive edges are compared, because the code skips zero-distance pairs. A route through two coincident points may therefore be overlooked, exactly as in the code.
- NearestNeighbor.NearestNeighborTour: the `Infinity` comparison is modelled by the "nothing chosen yet" flag. An infinite distance cannot arise from the table.
- Tsp.TwoOptImprovement: the source never calls it, so no solver answer refers to it.

## Findings

| source | as written | input that shows it | evidently intended | confidence | as-written member | corrected member |
|---|---|---|---|---|---|---|
| src/algorithms/knapsack.ts:79-80, 96 | Column 0 of the table is forced to 0, and the backtracking stops once the capacity left is 0. So once a bin uses up the last of the capacity, the bins of weight 0 (fill level 0) that come before it in the input are never counted; with capacity 0 no bin is taken at all. | bins `a` (location "main", fill 0, weight 0, value 50) then `b` (fill 1, weight 10, value 2), in that order, capacity 10: the table offers 50 and the code takes `a` alone, while taking both fits and is worth 52 | only row 0 is forced to 0, and the backtracking runs down to row 0, so the table is optimal for every weight | not executed | Knapsack.ForcedColumnMissesZeroWeightBin | Knapsack.FixedTableOptimal |
