// The route solver: the shortest-route search over the network restricted to
// a set of allowed modes, the conversion of a route into an itinerary, and
// the six problem solvers.

module Solver {
  import opened Routing
  import opened Graph
  import opened Paths
  import opened Search
  import opened Pricing
  import opened Itinerary

  /** The elements of `s` in reverse order. */
  function Reverse<T>(s: seq<T>): (r: seq<T>)
    ensures |r| == |s| && forall i :: 0 <= i < |s| ==> r[i] == s[|s| - 1 - i]
  {
    seq(|s|, i requires 0 <= i < |s| => s[|s| - 1 - i])
  }

  lemma ReverseSnoc<T>(s: seq<T>, x: T)
    ensures Reverse(s + [x]) == [x] + Reverse(s)
  {
    assert forall i :: 0 <= i < |s| ==> (s + [x])[i] == s[i];
  }

  lemma ReverseReverse<T>(s: seq<T>)
    ensures Reverse(Reverse(s)) == s
  {
  }

  /** One pass of the inner loop of the search: the `n`-th edge out of `u`,
      whose label is `c`, is skipped when its mode is not allowed; otherwise
      an end without a label, or with a label above `c` plus the edge's cost,
      gets that lower label, `u` as predecessor, the edge recorded, and a new
      queue entry. The invariants of the relaxation then cover one more edge. */
  method RelaxEdge(allowed: set<TransportMode>, cost: Edge -> real, ghost source: Location,
                   u: Location, c: real, edge: Edge,
                   dist0: map<Location, real>, prev0: map<Location, Location>,
                   allEdges0: seq<Edge>, edgeIdx0: map<Location, nat>, pq0: seq<QueueNode>,
                   ghost adj: map<Location, seq<Edge>>, ghost visited: set<Location>,
                   ghost order: map<Location, nat>, ghost done: set<Location>, ghost n: nat)
    returns (dist: map<Location, real>, prev: map<Location, Location>,
             allEdges: seq<Edge>, edgeIdx: map<Location, nat>, pq: seq<QueueNode>)
    requires OriginsMatch(adj) && NonNegativeOn(adj, cost)
    requires RelaxInv(adj, allowed, cost, source, dist0, prev0, allEdges0, edgeIdx0, pq0, visited, order, done, u, c, n)
    requires n < |Neighbors(adj, u)| && edge == Neighbors(adj, u)[n]
    ensures RelaxInv(adj, allowed, cost, source, dist, prev, allEdges, edgeIdx, pq, visited, order, done, u, c, n + 1)
    ensures dist.Keys <= dist0.Keys + {edge.end}
    ensures edge.mode !in allowed || (edge.end in dist0 && dist0[edge.end] <= c + cost(edge)) ==>
              dist == dist0 && prev == prev0 && allEdges == allEdges0 && edgeIdx == edgeIdx0 && pq == pq0
    ensures edge.mode in allowed && (edge.end !in dist0 || c + cost(edge) < dist0[edge.end]) ==>
              && dist == dist0[edge.end := c + cost(edge)] && prev == prev0[edge.end := u]
              && allEdges == allEdges0 + [edge] && edgeIdx == edgeIdx0[edge.end := |allEdges0|]
              && pq == pq0 + [QueueNode(edge.end, c + cost(edge))]
  {
    dist, prev, allEdges, edgeIdx, pq := dist0, prev0, allEdges0, edgeIdx0, pq0;
    if edge.mode !in allowed {
      SkipStep(adj, allowed, cost, source, dist, prev, allEdges, edgeIdx, pq, visited, order, done, u, c, n);
      return;
    }
    var newDist := c + cost(edge);
    if edge.end !in dist || newDist < dist[edge.end] {
      dist := dist[edge.end := newDist];
      prev := prev[edge.end := u];
      edgeIdx := edgeIdx[edge.end := |allEdges|];
      allEdges := allEdges + [edge];
      pq := pq + [QueueNode(edge.end, newDist)];
      RelaxStep(adj, allowed, cost, source, dist0, prev0, allEdges0, edgeIdx0, pq0, visited, order, done, u, c, n, edge,
                dist, prev, allEdges, edgeIdx, pq);
    } else {
      SkipStep(adj, allowed, cost, source, dist, prev, allEdges, edgeIdx, pq, visited, order, done, u, c, n);
    }
  }

  /** Problem 1's total: the distances of all rows added up. */
  method AddDistances(result: RouteResult) returns (r: RouteResult)
    ensures r == result.(totalValue := result.totalValue + Sum(result.distances))
  {
    r := result;
    for i := 0 to |r.distances|
      invariant r == result.(totalValue := result.totalValue + Sum(result.distances[..i]))
    {
      assert result.distances[..i + 1][..i] == result.distances[..i];
      r := r.(totalValue := r.totalValue + r.distances[i]);
    }
    assert result.distances[..|result.distances|] == result.distances;
  }

  /** The fare totals of problems 2 and 3: each row whose mode the tariff
      lists is charged its distance times the rate, and all row costs are
      added up. */
  method ChargeFares(result: RouteResult, t: Tariff) returns (r: RouteResult)
    requires Shaped(result)
    ensures r == result.(costs := PricedCosts(result, t), totalValue := result.totalValue + Sum(PricedCosts(result, t)))
  {
    var costs, total := result.costs, result.totalValue;
    ghost var priced := PricedCosts(result, t);
    for i := 0 to |result.distances|
      invariant |costs| == |result.costs|
      invariant forall j :: 0 <= j < |costs| ==> costs[j] == if j < i then priced[j] else result.costs[j]
      invariant total == result.totalValue + Sum(priced[..i])
    {
      if result.modes[i] in t {
        costs := costs[i := result.distances[i] * t[result.modes[i]]];
      }
      assert priced[..i + 1][..i] == priced[..i];
      total := total + costs[i];
    }
    assert costs == priced;
    assert priced[..|priced|] == priced;
    r := result.(costs := costs, totalValue := total);
  }

  class AllProblemsSolver {
    const graph: DhakaGraph

    constructor (g: DhakaGraph)
      ensures graph == g
    {
      graph := g;
    }

    /** Relaxes every allowed edge out of the just-finalised location `u`,
        whose label is `c`: an edge whose end has no label yet, or a label
        above `c` plus the edge's cost, gives that end the lower label, `u` as
        predecessor and the edge as its recorded edge, and queues it. */
    method RelaxNeighbors(allowed: set<TransportMode>, cost: Edge -> real, ghost source: Location,
                          u: Location, c: real,
                          dist0: map<Location, real>, prev0: map<Location, Location>,
                          allEdges0: seq<Edge>, edgeIdx0: map<Location, nat>, pq0: seq<QueueNode>,
                          ghost visited: set<Location>, ghost order: map<Location, nat>,
                          ghost done: set<Location>)
      returns (dist: map<Location, real>, prev: map<Location, Location>,
               allEdges: seq<Edge>, edgeIdx: map<Location, nat>, pq: seq<QueueNode>)
      requires graph.Valid() && NonNegativeOn(graph.adjacency, cost)
      requires RelaxInv(graph.adjacency, allowed, cost, source, dist0, prev0, allEdges0, edgeIdx0, pq0,
                        visited, order, done, u, c, 0)
      requires dist0.Keys <= graph.locations + {source}
      ensures TreeInv(graph.adjacency, allowed, cost, source, dist, prev, allEdges, edgeIdx, visited, order)
      ensures QueueInv(dist, visited, pq)
      ensures Settled(graph.adjacency, allowed, cost, source, dist, visited)
      ensures Frontier(graph.adjacency, allowed, cost, dist, done + {u})
      ensures dist.Keys <= graph.locations + {source}
    {
      ghost var adj := graph.adjacency;
      var neighbors := graph.GetNeighbors(u);
      dist, prev, allEdges, edgeIdx, pq := dist0, prev0, allEdges0, edgeIdx0, pq0;
      for j := 0 to |neighbors|
        invariant RelaxInv(adj, allowed, cost, source, dist, prev, allEdges, edgeIdx, pq, visited, order, done, u, c, j)
        invariant dist.Keys <= graph.locations + {source}
      {
        var edge := neighbors[j];
        assert edge in adj[u];
        dist, prev, allEdges, edgeIdx, pq :=
          RelaxEdge(allowed, cost, source, u, c, edge, dist, prev, allEdges, edgeIdx, pq, adj, visited, order, done, j);
      }
      RelaxedJoinsFrontier(adj, allowed, cost, dist, done, u);
    }

    /** One round of the search loop: takes a least entry off the queue;
        when its location is already finalised nothing else changes;
        otherwise that location is finalised as the next one and, unless it
        is the destination (`reached`), its edges are relaxed. */
    method SettleNext(allowed: set<TransportMode>, cost: Edge -> real, source: Location, destination: Location,
                      ghost known: set<Location>,
                      dist0: map<Location, real>, prev0: map<Location, Location>, allEdges0: seq<Edge>,
                      edgeIdx0: map<Location, nat>, visited0: set<Location>, pq0: seq<QueueNode>,
                      ghost order0: map<Location, nat>, ghost finalised0: seq<Location>)
      returns (dist: map<Location, real>, prev: map<Location, Location>, allEdges: seq<Edge>,
               edgeIdx: map<Location, nat>, visited: set<Location>, pq: seq<QueueNode>,
               ghost order: map<Location, nat>, ghost finalised: seq<Location>, reached: bool)
      requires graph.Valid() && NonNegativeOn(graph.adjacency, cost) && known == graph.locations + {source}
      requires pq0 != []
      requires SearchInv(graph.adjacency, allowed, cost, source, destination, known,
                         dist0, prev0, allEdges0, edgeIdx0, visited0, order0, finalised0, pq0)
      ensures !reached ==> SearchInv(graph.adjacency, allowed, cost, source, destination, known,
                                     dist, prev, allEdges, edgeIdx, visited, order, finalised, pq)
      ensures !reached ==> |known - visited| < |known - visited0| || (visited == visited0 && |pq| < |pq0|)
      ensures reached ==> Explored(graph.adjacency, allowed, cost, source, destination, known,
                                  dist, prev, allEdges, edgeIdx, visited, order, finalised)
      ensures reached <==> destination in visited && destination !in visited0
      ensures visited == visited0 ==> !reached && dist == dist0 && prev == prev0 && allEdges == allEdges0
                                      && edgeIdx == edgeIdx0 && finalised == finalised0 && |pq| == |pq0| - 1
      ensures visited != visited0 ==> |finalised| == |finalised0| + 1 && finalised[..|finalised0|] == finalised0
                                      && finalised[|finalised0|] !in visited0
                                      && visited == visited0 + {finalised[|finalised0|]}
    {
      var i := MinIndex(pq0);
      var u := pq0[i].location;
      if u in visited0 {
        SkipStale(graph.adjacency, allowed, cost, source, destination, known,
                  dist0, prev0, allEdges0, edgeIdx0, visited0, order0, finalised0, pq0, i);
        return dist0, prev0, allEdges0, edgeIdx0, visited0, RemoveAt(pq0, i), order0, finalised0, false;
      }
      reached := u == destination;
      if reached {
        FinaliseReached(graph.adjacency, allowed, cost, source, destination, known,
                        dist0, prev0, allEdges0, edgeIdx0, visited0, order0, finalised0, pq0, i);
        dist, prev, allEdges, edgeIdx, pq := dist0, prev0, allEdges0, edgeIdx0, RemoveAt(pq0, i);
      } else {
        dist, prev, allEdges, edgeIdx, pq :=
          SettleFresh(allowed, cost, source, destination, known,
                      dist0, prev0, allEdges0, edgeIdx0, visited0, pq0, order0, finalised0, i);
      }
      visited := visited0 + {u};
      order := order0[u := |finalised0|];
      finalised := finalised0 + [u];
    }

    /** The round in which the least queue entry `pq0[i]` names a location
        `u` that is neither finalised nor the destination: `u` is finalised
        as the next location (the caller adds it to the finalised set,
        numbers it and logs it) and the edges out of `u` are relaxed, after
        which the search invariant holds again. */
    method SettleFresh(allowed: set<TransportMode>, cost: Edge -> real, source: Location, destination: Location,
                       ghost known: set<Location>,
                       dist0: map<Location, real>, prev0: map<Location, Location>, allEdges0: seq<Edge>,
                       edgeIdx0: map<Location, nat>, visited0: set<Location>, pq0: seq<QueueNode>,
                       ghost order0: map<Location, nat>, ghost finalised0: seq<Location>, i: nat)
      returns (dist: map<Location, real>, prev: map<Location, Location>, allEdges: seq<Edge>,
               edgeIdx: map<Location, nat>, pq: seq<QueueNode>)
      requires graph.Valid() && NonNegativeOn(graph.adjacency, cost) && known == graph.locations + {source}
      requires SearchInv(graph.adjacency, allowed, cost, source, destination, known,
                         dist0, prev0, allEdges0, edgeIdx0, visited0, order0, finalised0, pq0)
      requires i < |pq0| && forall j :: 0 <= j < |pq0| ==> pq0[i].cost <= pq0[j].cost
      requires pq0[i].location !in visited0 && pq0[i].location != destination
      ensures SearchInv(graph.adjacency, allowed, cost, source, destination, known,
                        dist, prev, allEdges, edgeIdx, visited0 + {pq0[i].location},
                        order0[pq0[i].location := |finalised0|], finalised0 + [pq0[i].location], pq)
      ensures |known - (visited0 + {pq0[i].location})| < |known - visited0|
    {
      var u, c := pq0[i].location, pq0[i].cost;
      FinaliseStep(graph.adjacency, allowed, cost, source, destination, known,
                   dist0, prev0, allEdges0, edgeIdx0, visited0, order0, finalised0, pq0, i);
      ghost var visited, order, finalised := visited0 + {u}, order0[u := |finalised0|], finalised0 + [u];
      dist, prev, allEdges, edgeIdx, pq :=
        RelaxNeighbors(allowed, cost, source, u, c, dist0, prev0, allEdges0, edgeIdx0, RemoveAt(pq0, i),
                       visited, order, visited0);
      ResumeSearch(graph.adjacency, allowed, cost, source, destination, known,
                   dist, prev, allEdges, edgeIdx, visited, order, finalised, pq, visited0, u);
    }

    /** The search phase of the shortest-route search: rounds of SettleNext
        until the queue is empty or the destination is finalised.
        `finalised` lists the finalised locations in order and `order`
        numbers them. */
    method Explore(source: Location, destination: Location, allowed: set<TransportMode>, cost: Edge -> real)
      returns (dist: map<Location, real>, prev: map<Location, Location>, allEdges: seq<Edge>,
               edgeIdx: map<Location, nat>, visited: set<Location>,
               ghost order: map<Location, nat>, ghost finalised: seq<Location>)
      requires graph.Valid() && NonNegativeOn(graph.adjacency, cost)
      ensures Explored(graph.adjacency, allowed, cost, source, destination, graph.locations + {source},
                       dist, prev, allEdges, edgeIdx, visited, order, finalised)
    {
      ghost var adj := graph.adjacency;
      ghost var known := graph.locations + {source};
      dist := map[source := 0.0];
      prev := map[];
      allEdges := [];
      edgeIdx := map[];
      visited := {};
      order := map[];
      finalised := [];
      var pq := [QueueNode(source, 0.0)];

      while pq != []
        invariant SearchInv(adj, allowed, cost, source, destination, known,
                            dist, prev, allEdges, edgeIdx, visited, order, finalised, pq)
        decreases |known - visited|, |pq|
      {
        var reached;
        dist, prev, allEdges, edgeIdx, visited, pq, order, finalised, reached :=
          SettleNext(allowed, cost, source, destination, known, dist, prev, allEdges, edgeIdx, visited, pq, order, finalised);
        if reached {
          return;
        }
      }
      ExhaustedExplored(adj, allowed, cost, source, destination, known, dist, prev, allEdges, edgeIdx, visited, order, finalised);
    }

    /** The route-building phase: follows the predecessors back from
        `destination` to `source`, collecting the recorded edges, and returns
        them in travel order; a location without a predecessor before the
        source is reached gives the empty route. */
    method TracePath(source: Location, destination: Location, ghost allowed: set<TransportMode>,
                     ghost cost: Edge -> real, dist: map<Location, real>, prev: map<Location, Location>,
                     allEdges: seq<Edge>, edgeIdx: map<Location, nat>,
                     ghost visited: set<Location>, ghost order: map<Location, nat>)
      returns (path: seq<Edge>)
      requires TreeInv(graph.adjacency, allowed, cost, source, dist, prev, allEdges, edgeIdx, visited, order)
      requires destination in dist ==> destination in visited
      ensures destination !in dist ==> path == []
      ensures source == destination ==> path == []
      ensures destination in dist && source != destination ==>
        IsPath(graph.adjacency, allowed, source, destination, path) && PathCost(path, cost) == dist[destination]
    {
      ghost var adj := graph.adjacency;
      path := [];
      ghost var fwd: seq<Edge> := [];
      var current := destination;
      while current != source
        invariant current in visited || (current == destination && path == [] && destination !in dist)
        invariant source == destination ==> current == destination && path == []
        invariant current in visited ==> destination in dist
        invariant current in visited ==>
          IsPath(adj, allowed, current, destination, fwd) && dist[current] + PathCost(fwd, cost) == dist[destination]
        invariant fwd == Reverse(path)
        decreases if current in order then order[current] else 0
      {
        if current !in prev {
          return [];
        }
        assert TreeEdge(adj, allowed, cost, dist, prev, allEdges, edgeIdx, visited, order, current);
        if current in edgeIdx {
          TreeStep(adj, allowed, cost, dist, prev, allEdges, edgeIdx, visited, order, current, destination, fwd);
          ReverseSnoc(path, allEdges[edgeIdx[current]]);
          fwd := [allEdges[edgeIdx[current]]] + fwd;
          path := path + [allEdges[edgeIdx[current]]];
        }
        current := prev[current];
      }
      ReverseReverse(fwd);
      path := Reverse(path);
    }

    /** The cheapest route from `source` to `destination` using only edges
        whose mode is allowed, under the edge cost `cost`; empty when the two
        coincide or no such route exists. `finalised` lists the locations in
        the order the search finalises them. */
    method Dijkstra(source: Location, destination: Location, allowed: set<TransportMode>, cost: Edge -> real)
      returns (path: seq<Edge>, ghost finalised: seq<Location>)
      requires graph.Valid() && NonNegativeOn(graph.adjacency, cost)
      ensures ShortestRoute(graph.adjacency, allowed, cost, source, destination, path)
      ensures finalised != [] && finalised[0] == source
      ensures forall i, j :: 0 <= i < j < |finalised| ==> finalised[i] != finalised[j]
      ensures forall v :: v in finalised ==> v == source || v in graph.locations
      ensures destination in finalised ==> finalised[|finalised| - 1] == destination
      ensures Reachable(graph.adjacency, allowed, source, destination) ==> destination in finalised
      ensures destination !in finalised ==> forall v :: Reachable(graph.adjacency, allowed, source, v) ==> v in finalised
    {
      var dist, prev, allEdges, edgeIdx, visited;
      ghost var order;
      dist, prev, allEdges, edgeIdx, visited, order, finalised := Explore(source, destination, allowed, cost);
      path := TracePath(source, destination, allowed, cost, dist, prev, allEdges, edgeIdx, visited, order);
      RouteFromTree(graph.adjacency, allowed, cost, source, destination, dist, visited, path);
      FinalisedInOrder(order, visited, finalised);
      ExploredLog(graph.adjacency, allowed, cost, source, destination, graph.locations + {source},
                  dist, prev, allEdges, edgeIdx, visited, order, finalised);
    }
  
    /** The itinerary for the route `edges` between the requested `source`
        and `dest`: a walking row to the route when the gap exceeds the
        threshold, one row per leg (consecutive edges of one mode that join
        up), and a walking row from the route; nothing priced, total 0. */
    method ConvertToResult(edges: seq<Edge>, source: Location, dest: Location,
                           haversine: (Location, Location) -> real)
      returns (result: RouteResult)
      ensures result == FromSegments(Segments(edges, source, dest, haversine, graph.metroStations,
                                              graph.bikolpoStops, graph.uttaraStops))
    {
      var nearestSource := if edges == [] then source else edges[0].start;
      var nearestDest := if edges == [] then dest else edges[|edges| - 1].end;
      var walkStart := haversine(source, nearestSource);
      var walkEnd := haversine(nearestDest, dest);
      result := EmptyResult();
      ghost var head: seq<Segment> := [];
      if walkStart > WalkThreshold {
        var walk := WalkSegment(source, nearestSource, walkStart);
        head := [walk];
        FromSegmentsSnoc([], walk);
        result := AddSegment(result, walk);
      }
      assert head == WalkLegs(source, EntryPoint(edges, source), haversine);
      result := EmitLegs(edges, result, head);
      ghost var body := head + Named(Coalesce(edges), graph.metroStations, graph.bikolpoStops, graph.uttaraStops);
      assert body + WalkLegs(ExitPoint(edges, dest), dest, haversine)
          == Segments(edges, source, dest, haversine, graph.metroStations, graph.bikolpoStops, graph.uttaraStops);
      if walkEnd > WalkThreshold {
        FromSegmentsSnoc(body, WalkSegment(nearestDest, dest, walkEnd));
        result := AddSegment(result, WalkSegment(nearestDest, dest, walkEnd));
      } else {
        assert body + [] == body;
      }
    }

    /** The rows of the legs of `edges` appended to `result0`, the result of
        the rows `head`: the edges are walked in order with a current leg
        that grows by each edge of its mode starting where it ends, and is
        emitted, named after the stations at its ends, when another edge
        follows and after the last edge. */
    method EmitLegs(edges: seq<Edge>, result0: RouteResult, ghost head: seq<Segment>)
      returns (result: RouteResult)
      requires result0 == FromSegments(head)
      ensures result == FromSegments(head + Named(Coalesce(edges), graph.metroStations, graph.bikolpoStops, graph.uttaraStops))
    {
      result := result0;
      ghost var closed: seq<Leg> := [];
      assert head + Named([], graph.metroStations, graph.bikolpoStops, graph.uttaraStops) == head;
      if edges == [] {
        return;
      }
      var current := LegOf(edges[0]);
      for i := 1 to |edges|
        invariant closed + Group(current, edges[i..]) == Coalesce(edges)
        invariant result == FromSegments(head + Named(closed, graph.metroStations, graph.bikolpoStops, graph.uttaraStops))
      {
        CoalesceStep(edges, i, current, closed);
        if edges[i].mode == current.mode && LocEqual(edges[i].start, current.end) {
          current := Extend(current, edges[i]);
        } else {
          var row := Segment(current.start, current.end, current.mode, current.distance, 0.0,
                             graph.GetStationName(current.start), graph.GetStationName(current.end));
          RowStep(head, closed, current, graph.metroStations, graph.bikolpoStops, graph.uttaraStops);
          result := AddSegment(result, row);
          closed := closed + [current];
          current := LegOf(edges[i]);
        }
      }
      assert edges[|edges|..] == [];
      var row := Segment(current.start, current.end, current.mode, current.distance, 0.0,
                         graph.GetStationName(current.start), graph.GetStationName(current.end));
      RowStep(head, closed, current, graph.metroStations, graph.bikolpoStops, graph.uttaraStops);
      result := AddSegment(result, row);
      closed := closed + [current];
    }

    /** Problem 1, the shortest drive: both ends snapped to their nearest
        known locations, the shortest car route between those, its
        itinerary, and as total the distance of every row. */
    method SolveProblem1(source: Location, dest: Location, haversine: (Location, Location) -> real)
      returns (result: RouteResult, ghost route: seq<Edge>, ghost from: Location, ghost to: Location,
               ghost rows: seq<Segment>)
      requires graph.Valid() && DistancesNonNegative(graph.adjacency)
      ensures Snapped(graph.locations, source, haversine, from) && Snapped(graph.locations, dest, haversine, to)
      ensures ShortestRoute(graph.adjacency, {Car}, Problem1Cost, from, to, route)
      ensures rows == Segments(route, source, dest, haversine, graph.metroStations, graph.bikolpoStops, graph.uttaraStops)
      ensures result == FromSegments(rows).(totalValue := Sum(Column(rows, SegLength)))
      ensures result.totalValue == WalkDistance(source, EntryPoint(route, source), haversine)
        + PathCost(route, Problem1Cost) + WalkDistance(ExitPoint(route, dest), dest, haversine)
      ensures Measured(result)
    {
      var nearestSrc, scanSrc := graph.FindNearestLocation(source, haversine);
      var nearestDst, scanDst := graph.FindNearestLocation(dest, haversine);
      from, to := nearestSrc, nearestDst;
      CostsNonNegative(graph.adjacency);
      var edges, finalised := Dijkstra(nearestSrc, nearestDst, {Car}, Problem1Cost);
      route := edges;
      result := ConvertToResult(edges, source, dest, haversine);
      rows := Segments(route, source, dest, haversine, graph.metroStations, graph.bikolpoStops, graph.uttaraStops);
      DistancesColumn(rows);
      ItineraryDistance(route, source, dest, haversine, graph.metroStations, graph.bikolpoStops, graph.uttaraStops, rows);
      result := AddDistances(result);
      MeasuredItinerary(route, source, dest, haversine, graph.metroStations, graph.bikolpoStops, graph.uttaraStops,
                        rows, result);
    }

    /** What problems 2 and 3 answer: `from` and `to` are the known
        locations nearest to the requested ends, `route` a cheapest route
        between them over the allowed modes under `cost`, `rows` its
        itinerary, every row charged its fare under `tariff`, and as total
        the route's cost. */
    ghost predicate FareItinerary(source: Location, dest: Location, haversine: (Location, Location) -> real,
                                  allowed: set<TransportMode>, cost: Edge -> real, tariff: Tariff,
                                  result: RouteResult, route: seq<Edge>, from: Location, to: Location,
                                  rows: seq<Segment>)
      reads graph
    {
      && Snapped(graph.locations, source, haversine, from) && Snapped(graph.locations, dest, haversine, to)
      && ShortestRoute(graph.adjacency, allowed, cost, from, to, route)
      && rows == Segments(route, source, dest, haversine, graph.metroStations, graph.bikolpoStops, graph.uttaraStops)
      && result == FromSegments(rows).(costs := Column(rows, SegFare(tariff)), totalValue := PathCost(route, cost))
    }

    /** Problems 2 and 3 in one: search under `cost` over `allowed`, then
        charge the itinerary under `tariff`, which must agree with `cost` and
        leave walking free. */
    method SolveFare(source: Location, dest: Location, haversine: (Location, Location) -> real,
                     allowed: set<TransportMode>, cost: Edge -> real, tariff: Tariff)
      returns (result: RouteResult, ghost route: seq<Edge>, ghost from: Location, ghost to: Location,
               ghost rows: seq<Segment>)
      requires graph.Valid() && NonNegativeOn(graph.adjacency, cost)
      requires Walk !in tariff && forall e :: cost(e) == e.distance * Rate(tariff, e.mode)
      ensures FareItinerary(source, dest, haversine, allowed, cost, tariff, result, route, from, to, rows)
      ensures Charged(result, tariff)
      ensures forall i :: 0 <= i < |result.costs| && result.modes[i] == Walk ==> result.costs[i] == 0.0
    {
      var nearestSrc, scanSrc := graph.FindNearestLocation(source, haversine);
      var nearestDst, scanDst := graph.FindNearestLocation(dest, haversine);
      from, to := nearestSrc, nearestDst;
      var edges, finalised := Dijkstra(nearestSrc, nearestDst, allowed, cost);
      route := edges;
      result := ConvertToResult(edges, source, dest, haversine);
      rows := Segments(route, source, dest, haversine, graph.metroStations, graph.bikolpoStops, graph.uttaraStops);
      ghost var unpriced := result;
      result := ChargeFares(result, tariff);
      FaresCharged(route, source, dest, haversine, graph.metroStations, graph.bikolpoStops, graph.uttaraStops, rows,
                   tariff, cost, unpriced, result);
      ChargedItinerary(route, source, dest, haversine, graph.metroStations, graph.bikolpoStops, graph.uttaraStops,
                       rows, tariff, cost, result);
    }

    /** Problem 2, the cheapest trip by car and metro. */
    method SolveProblem2(source: Location, dest: Location, haversine: (Location, Location) -> real)
      returns (result: RouteResult, ghost route: seq<Edge>, ghost from: Location, ghost to: Location,
               ghost rows: seq<Segment>)
      requires graph.Valid() && DistancesNonNegative(graph.adjacency)
      ensures FareItinerary(source, dest, haversine, {Car, Metro}, Problem2Cost, Problem2Tariff,
                            result, route, from, to, rows)
      ensures Charged(result, Problem2Tariff)
      ensures forall i :: 0 <= i < |result.costs| && result.modes[i] == Walk ==> result.costs[i] == 0.0
    {
      CostsNonNegative(graph.adjacency);
      TariffRates();
      forall e ensures Problem2Cost(e) == e.distance * Rate(Problem2Tariff, e.mode) {
        CostsFollowTariffs(e);
      }
      result, route, from, to, rows := SolveFare(source, dest, haversine, {Car, Metro}, Problem2Cost, Problem2Tariff);
    }

    /** Problem 3, the cheapest trip by car, metro and either bus. */
    method SolveProblem3(source: Location, dest: Location, haversine: (Location, Location) -> real)
      returns (result: RouteResult, ghost route: seq<Edge>, ghost from: Location, ghost to: Location,
               ghost rows: seq<Segment>)
      requires graph.Valid() && DistancesNonNegative(graph.adjacency)
      ensures FareItinerary(source, dest, haversine, {Car, Metro, BusBikolpo, BusUttara}, Problem3Cost, Problem3Tariff,
                            result, route, from, to, rows)
      ensures Charged(result, Problem3Tariff)
      ensures forall i :: 0 <= i < |result.costs| && result.modes[i] == Walk ==> result.costs[i] == 0.0
    {
      CostsNonNegative(graph.adjacency);
      TariffRates();
      forall e ensures Problem3Cost(e) == e.distance * Rate(Problem3Tariff, e.mode) {
        CostsFollowTariffs(e);
      }
      result, route, from, to, rows := SolveFare(source, dest, haversine, {Car, Metro, BusBikolpo, BusUttara},
                                                 Problem3Cost, Problem3Tariff);
    }

    /** Problems 4, 5 and 6 answer as problem 3 does. */
    method SolveProblem4(source: Location, dest: Location, haversine: (Location, Location) -> real)
      returns (result: RouteResult, ghost route: seq<Edge>, ghost from: Location, ghost to: Location,
               ghost rows: seq<Segment>)
      requires graph.Valid() && DistancesNonNegative(graph.adjacency)
      ensures FareItinerary(source, dest, haversine, {Car, Metro, BusBikolpo, BusUttara}, Problem3Cost, Problem3Tariff,
                            result, route, from, to, rows)
      ensures Charged(result, Problem3Tariff)
      ensures forall i :: 0 <= i < |result.costs| && result.modes[i] == Walk ==> result.costs[i] == 0.0
    {
      result, route, from, to, rows := SolveProblem3(source, dest, haversine);
    }

    method SolveProblem5(source: Location, dest: Location, haversine: (Location, Location) -> real)
      returns (result: RouteResult, ghost route: seq<Edge>, ghost from: Location, ghost to: Location,
               ghost rows: seq<Segment>)
      requires graph.Valid() && DistancesNonNegative(graph.adjacency)
      ensures FareItinerary(source, dest, haversine, {Car, Metro, BusBikolpo, BusUttara}, Problem3Cost, Problem3Tariff,
                            result, route, from, to, rows)
      ensures Charged(result, Problem3Tariff)
      ensures forall i :: 0 <= i < |result.costs| && result.modes[i] == Walk ==> result.costs[i] == 0.0
    {
      result, route, from, to, rows := SolveProblem3(source, dest, haversine);
    }

    method SolveProblem6(source: Location, dest: Location, haversine: (Location, Location) -> real)
      returns (result: RouteResult, ghost route: seq<Edge>, ghost from: Location, ghost to: Location,
               ghost rows: seq<Segment>)
      requires graph.Valid() && DistancesNonNegative(graph.adjacency)
      ensures FareItinerary(source, dest, haversine, {Car, Metro, BusBikolpo, BusUttara}, Problem3Cost, Problem3Tariff,
                            result, route, from, to, rows)
      ensures Charged(result, Problem3Tariff)
      ensures forall i :: 0 <= i < |result.costs| && result.modes[i] == Walk ==> result.costs[i] == 0.0
    {
      result, route, from, to, rows := SolveProblem3(source, dest, haversine);
    }
  }
}
