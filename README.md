# Dhaka multi-modal routing core in Dafny

This project models the routing engine of a multi-modal router for Dhaka, and proves facts about it. The engine has three parts:

- **The network** (`DhakaGraph`). It holds:
  - an adjacency map from each origin to its outgoing edges;
  - the set of known locations;
  - three station-name tables (metro, Bikolpo bus, Uttara bus);
  - a linear scan for the known location nearest to a point.
- **The shortest-route search** (`dijkstra`). A priority-queue search over the edges whose transport mode is allowed, under a caller-supplied edge cost. It stops once the destination comes off the queue, then rebuilds the route from predecessor links.
- **The itinerary builder and the six problems** (`convertToResult`, `solveProblem1`–`6`):
  - The route becomes rows: a walking row at either end when the gap to the requested point exceeds 0.001 km, and one row per run of consecutive edges of one mode that join up.
  - Problem 1 finds the shortest car route and totals the distance of every row, walks included.
  - Problem 2 charges car at 20 and metro at 5 per km.
  - Problem 3 also charges both buses at 7.
  - Problems 4–6 answer as problem 3 does.

Modules, one file each:

| module | file | contents |
|---|---|---|
| `Routing` | `routing.dfy` | transport modes, locations with the tolerant comparisons as written, edges, mode names |
| `Graph` | `graph.dfy` | the `DhakaGraph` class and the facts its methods rely on |
| `Paths` | `paths.dfy` | allowed routes, route costs, what "shortest route" means |
| `Search` | `search.dfy` | queue entries, extract-min, and the invariants of the search |
| `Pricing` | `policies.dfy` | rates, tariffs and the three edge-cost functions |
| `Itinerary` | `itinerary.dfy` | the result record, coalescing of edges into legs, itinerary rows, totals |
| `Solver` | `solver.dfy` | the `AllProblemsSolver` class: search, itinerary assembly, problems 1–6 |

How the model is set up:

- **State.** Stateful code is imperative Dafny:
  - the network is a class whose methods update `map`/`set` fields;
  - the search is a `while` loop over a sequence used as the priority queue, updating label, predecessor and edge-index maps;
  - route rebuilding, coalescing and fare charging are loops.
- **Specifications.** Each loop is proved against a specification function:
  - `ShortestRoute` for the search;
  - `FromSegments(Segments(...))` for the itinerary;
  - `PricedCosts` and `Sum` for the totals.
- **Lemmas.** Lemmas relate those functions to what the program promises: optimality, chaining, conservation of distance, and maximal coalescing.

## Model

| member | source | states |
|---|---|---|
| Routing.DefaultLocation | DhakaRouting.h:38 | the default location is (0, 0) |
| Routing.LocEqual | DhakaRouting.h:41-44 | tolerant `==`: both coordinates differ by less than 1e-6 (a definition; its properties are the lemmas below) |
| Routing.LocNotEqual | DhakaRouting.h:46-48 | `!=` is defined as the negation of the tolerant `==` (a definition) |
| Routing.LocLess | DhakaRouting.h:50-55 | `<`: by latitude when the latitudes differ by at least 1e-6, otherwise by exact longitude (a definition) |
| Routing.NotEqualIsNegation | DhakaRouting.h:46-48 | `!=` holds exactly when `==` does not |
| Routing.LocEqualReflexiveSymmetric | DhakaRouting.h:41-44 | tolerant equality is reflexive and symmetric |
| Routing.LocLessCases | DhakaRouting.h:50-55 | `<` is irreflexive; it orders by latitude alone when latitudes differ by at least 1e-6, and otherwise by exact longitude |
| Routing.EqualYetOrdered | DhakaRouting.h:41-55 | there are two locations that are `==` and yet strictly ordered by `<` |
| Routing.LocEqualNotTransitive | DhakaRouting.h:41-44 | tolerant equality is not transitive (a concrete triple) |
| Routing.MapEquivalence | DhakaRouting.h:50-55 | an ordered map keyed by `<` merges two keys exactly when latitudes are within 1e-6 and longitudes are identical, which implies `==` but not conversely |
| Routing.LocLessCycle | DhakaRouting.h:50-55 | as written, `<` has a cycle x < y < z < x, so it is not a strict weak ordering |
| Routing.LexLessIsStrictTotalOrder | DhakaRouting.h:50-55 | exact lexicographic order is irreflexive, transitive, total and asymmetric |
| Routing.GridComparisonsAreExact | DhakaRouting.h:41-55 | on micro-degree grid points, `==` is exact equality and `<` is exact lexicographic order |
| Routing.DefaultEdge | DhakaRouting.h:71 | the default edge is a zero-length walk at (0, 0) with an empty name |
| Routing.NewEdge | DhakaRouting.h:72-73 | the full constructor stores its five arguments |
| Routing.NewEdgeDefaultName | DhakaRouting.h:72 | the name defaults to the empty string |
| Routing.ModeName | DhakaRouting.h:76-85 | the display names "Walk", "Car", "Metro", "Bikolpo Bus" and "Uttara Bus" (a definition) |
| Routing.ModeNamesDistinct | DhakaRouting.h:76-85 | the five mode names are pairwise distinct, so a name identifies its mode |
| Graph.Neighbors | DhakaGraph.h:22-26 | the stored list of a known origin, the empty list otherwise (a definition, used by the search) |
| Graph.EdgeTotal | DhakaGraph.h:79-85 | the number of edges in an adjacency map, summed list by list (a definition; its order independence is `EdgeTotalRemove`) |
| Graph.DhakaGraph.constructor | DhakaGraph.h:7-13 | a new network has no edges, locations or station names, and is well formed |
| Graph.DhakaGraph.AddEdge | DhakaGraph.h:16-20 | both endpoints become known; the edge is appended to its origin's list; every other list, every station table and well-formedness are kept; the edge total grows by exactly 1 and the location count by at most 2 |
| Graph.EdgeTotalAppend | DhakaGraph.h:19 | appending one edge to one adjacency list raises the edge total by exactly 1 |
| Graph.AppendKeepsWellFormed | DhakaGraph.h:16-20 | adding an edge under its own origin, with both endpoints, keeps every edge listed under its origin with known endpoints |
| Graph.DhakaGraph.GetNeighbors | DhakaGraph.h:22-26 | the stored list for a known origin, the empty list otherwise |
| Graph.DhakaGraph.AddMetroStation | DhakaGraph.h:28-30 | overwrites the metro name of the location (lookup then yields it) and changes nothing else |
| Graph.DhakaGraph.AddBikolpoStop | DhakaGraph.h:32-34 | overwrites the Bikolpo name; lookup yields it unless a metro name takes priority; nothing else changes |
| Graph.DhakaGraph.AddUttaraStop | DhakaGraph.h:36-38 | overwrites the Uttara name; lookup yields it unless a metro or Bikolpo name takes priority; nothing else changes |
| Graph.StationName | DhakaGraph.h:40-51 | the metro name when there is one, else the Bikolpo name, else the Uttara name, else "" |
| Graph.DhakaGraph.GetStationName | DhakaGraph.h:40-51 | the network's view of `StationName` over its own three tables: the same priority order, read from its fields |
| Graph.DhakaGraph.FindNearestLocation | DhakaGraph.h:53-68 | returns the target when no known location is closer than the largest double (in particular when there are none); otherwise a known location closer than that and at least as close as every other, the first such in ascending key order |
| Graph.ScanFindsNearest | DhakaGraph.h:56-67 | a finished scan with a strict `<` running minimum, started at the largest double with the target as candidate, picks a nearest element, the first one in scan order, or keeps the target when no element is closer than the start |
| Graph.BestImproves | DhakaGraph.h:61-64 | a strictly closer element becomes the new running minimum |
| Graph.LeastOf | DhakaGraph.h:59 | every non-empty set of locations has a least element, so the set can be visited in ascending order |
| Graph.DhakaGraph.GetLocationCount | DhakaGraph.h:75-77 | the number of known locations |
| Graph.DhakaGraph.GetEdgeCount | DhakaGraph.h:79-85 | the sum of the adjacency-list lengths |
| Graph.EdgeTotalRemove | DhakaGraph.h:81-83 | for any origin, the edge total is that origin's list length plus the total of the other lists |
| Paths.PathIsChain | AllProblemsSolver.h:75-88 | a non-empty route starts at the source and ends at the destination; each edge starts where the previous ends; every edge is stored and has an allowed mode |
| Paths.PathCostAppend | AllProblemsSolver.h:62-63 | the cost of a concatenated route is the sum of the parts' costs |
| Paths.RouteCostNonNegative | AllProblemsSolver.h:62-63 | under a cost that is non-negative on stored edges, every route costs at least 0 |
| Paths.ClosedSetHoldsReachable | AllProblemsSolver.h:59-72 | a set that holds the source and is closed under allowed edges holds every reachable location |
| Search.MinIndex | AllProblemsSolver.h:51 | the top of the queue is an entry of least cost; queue entries are `QueueNode` values, the source's `DijkstraNode` |
| Search.RemoveAt | AllProblemsSolver.h:52 | popping removes exactly that one entry: the queue shrinks by one, and as a multiset it loses one copy of the entry and keeps every other entry |
| Search.CrossingBound | AllProblemsSolver.h:59-72 | every allowed route that leaves the finalised set costs at least the least cost in the queue |
| Search.PopSettles | AllProblemsSolver.h:50-56 | the least entry of an unfinalised location carries its label, and no allowed route to it is cheaper |
| Search.RelaxTargetsUnfinalised | AllProblemsSolver.h:65-67 | with non-negative costs, relaxation never improves the label of a finalised location or of the source |
| Search.FinalisedInOrder | AllProblemsSolver.h:54-55 | every location is finalised at most once |
| Search.FinaliseReached | AllProblemsSolver.h:50-56 | finalising the destination when it is the least queue entry ends the search phase with settled labels, a consistent tree and the destination logged last |
| Search.ExploredLog | AllProblemsSolver.h:50-81 | after the search phase the log lists exactly the finalised locations; it holds the destination whenever the destination is reachable, and when it does not, it holds every reachable location |
| Search.ExhaustedSearch | AllProblemsSolver.h:50-81 | a location outside a set that holds the source and is closed under allowed edges is unreachable; this is how an exhausted queue shows the destination unreachable |
| Search.StayIsShortest | AllProblemsSolver.h:78 | the empty route is a shortest route from a location to itself |
| Search.TreeStep | AllProblemsSolver.h:82-85 | following a recorded edge back to its predecessor extends the route, which still accounts for the destination's label |
| Search.RouteFromTree | AllProblemsSolver.h:75-89 | the rebuilt route is a shortest route: empty exactly when source and destination coincide or the destination is unreachable, otherwise an allowed route that no allowed route undercuts |
| Solver.Reverse | AllProblemsSolver.h:88 | the result has the input's length and holds its elements in reverse order |
| Solver.RelaxEdge | AllProblemsSolver.h:60-71 | one edge out of the popped location: a disallowed mode is skipped; otherwise a better label is recorded with its predecessor, its edge and a new queue entry; the relaxation invariants then cover one more edge, and at most the edge's end gains a label |
| Solver.AllProblemsSolver.constructor | AllProblemsSolver.h:157 | the solver keeps the network it is given |
| Solver.AllProblemsSolver.RelaxNeighbors | AllProblemsSolver.h:59-72 | relaxing all allowed edges of the popped location keeps the tree, queue and settled invariants and adds the location to the relaxed frontier |
| Solver.AllProblemsSolver.SettleNext | AllProblemsSolver.h:51-72 | one round of the main loop. A stale entry leaves labels, predecessors, recorded edges, the finalised set and the log unchanged and shrinks the queue by one. Otherwise exactly one new location is finalised and appended to the log. The round stops the search (`reached`) exactly when that location is the destination; then the search phase is complete, else the loop invariants hold again with less left to finalise |
| Solver.AllProblemsSolver.SettleFresh | AllProblemsSolver.h:54-72 | finalising a least entry that is neither finalised nor the destination, then relaxing its edges, restores the loop invariants with that location added and logged |
| Solver.AllProblemsSolver.Explore | AllProblemsSolver.h:39-73 | the search phase ends with settled labels, a consistent predecessor tree, and the destination either finalised or unreachable |
| Solver.AllProblemsSolver.TracePath | AllProblemsSolver.h:75-89 | the rebuilt route is empty when the destination has no label or equals the source; otherwise it is an allowed route from source to destination whose cost is the destination's label |
| Solver.AllProblemsSolver.Dijkstra | AllProblemsSolver.h:36-90 | the result is a shortest allowed route (empty exactly when source = destination or unreachable). The log of finalised locations starts with the source, repeats none, and ends with the destination when it holds it. It holds the destination whenever the destination is reachable. When it does not hold the destination, the queue ran dry and it holds every reachable location |
| Itinerary.EmptyResult | AllProblemsSolver.h:9-19 | a new result has six empty parallel columns and total 0 |
| Itinerary.FromSegments | AllProblemsSolver.h:9-19 | the six columns have equal length, and row i holds the i-th segment's fields |
| Itinerary.FromSegmentsSnoc | AllProblemsSolver.h:102-107 | pushing one row onto all six columns appends one segment |
| Itinerary.Group | AllProblemsSolver.h:117-133 | the legs of the remaining edges given the leg under construction: a continuing edge extends it, any other closes it (a definition; its properties are the Coalesce lemmas) |
| Itinerary.Coalesce | AllProblemsSolver.h:111-142 | no legs for no edges, otherwise the grouping started by the first edge (a definition) |
| Itinerary.Segments | AllProblemsSolver.h:92-154 | the rows of an itinerary: optional walk to the route, one named row per leg, optional walk from it (a definition; its layout is `ItineraryLayout`) |
| Itinerary.CoalesceShape | AllProblemsSolver.h:111-142 | between 1 and `edges.size()` legs for a non-empty route, none for an empty one; the first leg starts at the first edge's start and the last ends at the last edge's end |
| Itinerary.CoalesceTotal | AllProblemsSolver.h:115-120 | for any additive measure (distance, fare), the legs total what the edges total; in particular leg distances sum to the edge distances |
| Itinerary.CoalesceMaximal | AllProblemsSolver.h:118 | no two consecutive legs have the same mode and join up |
| Itinerary.CoalesceChained | AllProblemsSolver.h:111-142 | on a chained route, consecutive legs meet end to start and differ in mode |
| Itinerary.CoalesceModes | AllProblemsSolver.h:112-133 | when every edge's mode is allowed, so is every leg's |
| Itinerary.CoalesceStep | AllProblemsSolver.h:117-133 | extending the current leg or closing it keeps "closed legs + the rest grouped" equal to the coalesced route |
| Itinerary.ItineraryLayout | AllProblemsSolver.h:95-151 | a walking row first exactly when the start gap exceeds 0.001, a walking row last exactly when the end gap does, one named row per leg in between; walk rows have empty names |
| Itinerary.ItineraryUnpriced | AllProblemsSolver.h:101-151 | every row is built with cost 0 |
| Itinerary.ItineraryDistance | AllProblemsSolver.h:171-173 | the row distances add up to both walks plus the route's distance |
| Itinerary.ItineraryFare | AllProblemsSolver.h:236-246 | the per-row fares add up to the route's search cost; walking rows are free |
| Itinerary.PricedUnpriced | AllProblemsSolver.h:198-203 | pricing unpriced rows gives each row its distance times its mode's rate |
| Itinerary.FaresCharged | AllProblemsSolver.h:195-207 | charged itinerary rows carry their fares, and the total is the route's search cost |
| Itinerary.ChargedItinerary | AllProblemsSolver.h:236-246 | a fare itinerary totalled at its route's cost has every row cost distance × rate of its mode, a total equal to the sum of the row costs, and free walking rows |
| Itinerary.ChargedRows | AllProblemsSolver.h:236-246 | rows whose cost column holds their fares, totalled over it, cost distance × rate each, and walking rows cost nothing |
| Itinerary.MeasuredItinerary | AllProblemsSolver.h:169-173 | a distance itinerary totalled over its row distances charges no row, and its total is the sum of the distance column |
| Solver.AllProblemsSolver.ConvertToResult | AllProblemsSolver.h:92-154 | the result is exactly the itinerary rows of the route: walks, named legs, walks, all unpriced, total 0 |
| Solver.AllProblemsSolver.EmitLegs | AllProblemsSolver.h:111-142 | the coalescing loop appends one named row per leg of the coalesced route |
| Solver.AddDistances | AllProblemsSolver.h:171-173 | adds the sum of the distance column to the total |
| Solver.ChargeFares | AllProblemsSolver.h:198-205 | rows whose mode the tariff lists get distance × rate, others keep their cost; the total grows by the sum of the costs |
| Solver.AllProblemsSolver.SolveProblem1 | AllProblemsSolver.h:160-176 | both ends snapped to nearest known locations; route a shortest car route between them; rows its itinerary; no row charged; total the sum of all row distances, which equals walk + route + walk distance |
| Solver.AllProblemsSolver.SolveFare | AllProblemsSolver.h:178-249 | snapped ends, a cheapest allowed route under the cost, its itinerary; each row costs its distance × its mode's rate, walking rows nothing; total the sum of the row costs, which equals the route's cost |
| Solver.AllProblemsSolver.SolveProblem2 | AllProblemsSolver.h:178-208 | as SolveFare over car and metro, with car 20 and metro 5 per km and buses uncharged |
| Solver.AllProblemsSolver.SolveProblem3 | AllProblemsSolver.h:211-249 | as SolveFare over car, metro and both buses, with buses at 7 per km |
| Solver.AllProblemsSolver.SolveProblem4 | AllProblemsSolver.h:251-253 | the same answer as problem 3 |
| Solver.AllProblemsSolver.SolveProblem5 | AllProblemsSolver.h:255-257 | the same answer as problem 3 |
| Solver.AllProblemsSolver.SolveProblem6 | AllProblemsSolver.h:259-261 | the same answer as problem 3 |
| Pricing.Problem1Cost | AllProblemsSolver.h:164 | problem 1's search cost is the edge's distance (a definition) |
| Pricing.Problem2Cost | AllProblemsSolver.h:185-189 | problem 2's search cost: car 20 and metro 5 per km, anything else 0 (a definition) |
| Pricing.Problem3Cost | AllProblemsSolver.h:219-225 | problem 3's search cost: also both buses at 7 per km (a definition) |
| Pricing.TariffRates | AllProblemsSolver.h:212-214 | problem 2 charges car 20 and metro 5 and no bus; problem 3 adds both buses at 7; neither charges walking |
| Pricing.CostsFollowTariffs | AllProblemsSolver.h:219-225 | each search cost is distance × the rate of its problem's tariff (problem 1: distance) |
| Pricing.Problem3ExtendsProblem2 | AllProblemsSolver.h:219-225 | problem 3 agrees with problem 2 off the buses, and never charges less for a non-negative distance |
| Pricing.CostsNonNegative | AllProblemsSolver.h:164-225 | with non-negative distances, all three search costs are non-negative on the network |

## Left out

- `haversineDistance` and `toRadians` are not modelled (floating-point trigonometry). The distance function is a parameter `haversine`. Nothing is required of it; a distance not below the largest double (the exact value of `DBL_MAX`, `Graph.DoubleMax`) never replaces the running minimum, as in the source. The same function is used both for snapping to the network and for measuring walks.
- Floating point: distances and costs are reals. No rounding and no order-dependent summation are modelled. `size_t` counts are unbounded naturals.
- Map and set keys use exact location equality. The source keys its maps and sets with the tolerant `<`, which is not a strict weak ordering (see Findings). The tolerant `==` in `if (current.location == destination)` and `while (current != source)` is also exact in the model. `Routing.GridComparisonsAreExact` shows the two readings agree on micro-degree grid points.
- The iteration order of `std::set` in `findNearestLocation` is modelled as ascending exact lexicographic order. That order is returned as the ghost `scan`.
- `std::priority_queue` is a sequence, and extract-min takes some entry of least cost. Which of several equal-cost entries comes off first is left open, so among equally short routes the model does not fix which one is returned.
- Solver.AllProblemsSolver.Dijkstra requires the network to be well formed and the cost to be non-negative on stored edges; the source checks neither. With a negative cost, the source's rebuild loop may not terminate. The solvers require non-negative edge distances, which gives their costs this property.
- Solver.AllProblemsSolver.SolveProblem4: the source returns exactly problem 3's result. The model states the same contract as problem 3 instead, because Dafny cannot equate the results of two method calls.
- Solver.AllProblemsSolver.SolveProblem5: the source returns exactly problem 3's result. The model states the same contract as problem 3 instead, for the same reason as problem 4.
- Solver.AllProblemsSolver.SolveProblem6: the source returns exactly problem 3's result. The model states the same contract as problem 3 instead, for the same reason as problem 4.
- Problems 2 and 3 keep their rates in a tariff map. The search costs `Problem2Cost` and `Problem3Cost` keep the source's if-chains, and `Pricing.CostsFollowTariffs` proves the two agree.
- Solver.AllProblemsSolver.ConvertToResult: the itinerary record is a value, and each push is an append to all six columns. The coalescing loop stands in a separate method, `EmitLegs`.
- `distanceToNearestLocation`, `Location::toString`, `main.cpp` (printing and KML output) and `CSVParser.h` (file ingestion) are not part of this model. They do presentation and I/O.

## Findings

| source | as written | input that shows it | evidently intended | confidence | as-written member | corrected member |
|---|---|---|---|---|---|---|
| DhakaRouting.h:50-55 | `<` compares by latitude only when latitudes differ by at least 1e-6, and by longitude otherwise | x = (1.2e-6, 0), y = (6e-7, 1), z = (0, 2) gives x < y, y < z and z < x, a cycle; `std::map`/`std::set` need a strict weak ordering | an exact strict total order on (latitude, longitude) | not executed | Routing.LocLessCycle | Routing.LexLessIsStrictTotalOrder |
