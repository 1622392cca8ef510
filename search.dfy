// The priority-queue entries of the shortest-route search, the extract-min
// operation, and the invariants that make the search correct.

module Search {
  import opened Routing
  import opened Graph
  import opened Paths

  /** A queue entry: a location and the tentative cost it was queued with. */
  datatype QueueNode = QueueNode(location: Location, cost: real)

  /** The position of an entry of least cost: the top of a min-priority queue.
      Which of several equal-cost entries is taken is left open. */
  method MinIndex(pq: seq<QueueNode>) returns (i: nat)
    requires pq != []
    ensures i < |pq|
    ensures forall j :: 0 <= j < |pq| ==> pq[i].cost <= pq[j].cost
  {
    i := 0;
    var j := 1;
    while j < |pq|
      invariant 1 <= j <= |pq| && i < j
      invariant forall k :: 0 <= k < j ==> pq[i].cost <= pq[k].cost
    {
      if pq[j].cost < pq[i].cost {
        i := j;
      }
      j := j + 1;
    }
  }

  /** The queue with the entry at position `i` taken out. */
  function RemoveAt(pq: seq<QueueNode>, i: nat): (r: seq<QueueNode>)
    requires i < |pq|
    ensures |r| == |pq| - 1
    ensures forall x :: x in pq && x != pq[i] ==> x in r
    ensures forall x :: x in r ==> x in pq
    ensures multiset(r) == multiset(pq) - multiset{pq[i]}
  {
    assert pq == pq[..i] + [pq[i]] + pq[i + 1..];
    pq[..i] + pq[i + 1..]
  }

  /** The recorded edge of `v` leads from its predecessor to `v`, is an allowed
      stored edge, and accounts for the label of `v`; the predecessor is
      finalised, and finalised before `v` when `v` is. */
  ghost predicate TreeEdge(adj: map<Location, seq<Edge>>, allowed: set<TransportMode>, cost: Edge -> real,
                           dist: map<Location, real>, prev: map<Location, Location>, allEdges: seq<Edge>,
                           edgeIdx: map<Location, nat>, visited: set<Location>, order: map<Location, nat>,
                           v: Location) {
    && v in prev && v in edgeIdx && v in dist && prev[v] in dist
    && edgeIdx[v] < |allEdges|
    && allEdges[edgeIdx[v]].start == prev[v]
    && allEdges[edgeIdx[v]].end == v
    && IsAllowedEdge(adj, allowed, allEdges[edgeIdx[v]])
    && prev[v] in visited && prev[v] in order
    && dist[v] == dist[prev[v]] + cost(allEdges[edgeIdx[v]])
    && (v in visited ==> v in order && order[prev[v]] < order[v])
  }

  /** The shape of the search state: labels, predecessors and recorded edges
      are kept for the same locations (the source has a label only), labels
      are non-negative, and finalised locations are labelled. */
  ghost predicate TreeShape(source: Location, dist: map<Location, real>, prev: map<Location, Location>,
                            edgeIdx: map<Location, nat>, visited: set<Location>, order: map<Location, nat>) {
    && source in dist && dist[source] == 0.0 && source !in prev
    && (forall v :: v in dist ==> dist[v] >= 0.0 && (v == source || v in prev))
    && (forall v :: v in prev ==> v in dist && v in edgeIdx)
    && (forall v :: v in edgeIdx ==> v in prev)
    && (forall v :: v in visited ==> v in dist && v in order)
    && (forall v :: v in order ==> v in visited)
  }

  /** Every predecessor link is a TreeEdge. The trigger keeps the solver
      from following predecessor chains on its own. */
  ghost predicate TreeEdges(adj: map<Location, seq<Edge>>, allowed: set<TransportMode>, cost: Edge -> real,
                            dist: map<Location, real>, prev: map<Location, Location>,
                            allEdges: seq<Edge>, edgeIdx: map<Location, nat>, visited: set<Location>,
                            order: map<Location, nat>) {
    forall v {:trigger TreeEdge(adj, allowed, cost, dist, prev, allEdges, edgeIdx, visited, order, v)} ::
      v in prev ==> TreeEdge(adj, allowed, cost, dist, prev, allEdges, edgeIdx, visited, order, v)
  }

  ghost predicate TreeInv(adj: map<Location, seq<Edge>>, allowed: set<TransportMode>, cost: Edge -> real,
                          source: Location, dist: map<Location, real>, prev: map<Location, Location>,
                          allEdges: seq<Edge>, edgeIdx: map<Location, nat>, visited: set<Location>,
                          order: map<Location, nat>) {
    && TreeShape(source, dist, prev, edgeIdx, visited, order)
    && TreeEdges(adj, allowed, cost, dist, prev, allEdges, edgeIdx, visited, order)
  }

  /** `order` numbers the finalised locations by when they were finalised,
      and `finalised` lists them in that order. */
  ghost predicate OrderInv(order: map<Location, nat>, finalised: seq<Location>) {
    && (forall v :: v in order ==> order[v] < |finalised| && finalised[order[v]] == v)
    && (forall i :: 0 <= i < |finalised| ==> finalised[i] in order && order[finalised[i]] == i)
  }

  /** Queue entries never undercut the label of their location, every
      labelled unfinalised location is queued with its label, and no queued
      entry costs less than a finalised label. */
  ghost predicate QueueInv(dist: map<Location, real>, visited: set<Location>, pq: seq<QueueNode>) {
    && (forall j :: 0 <= j < |pq| ==> pq[j].location in dist && dist[pq[j].location] <= pq[j].cost)
    && (forall v :: v in dist && v !in visited ==> QueueNode(v, dist[v]) in pq)
    && (forall w, j :: w in visited && w in dist && 0 <= j < |pq| ==> dist[w] <= pq[j].cost)
  }

  /** No finalised location has a label above `c`. */
  ghost predicate LabelsAtMost(dist: map<Location, real>, visited: set<Location>, c: real) {
    forall w :: w in visited && w in dist ==> dist[w] <= c
  }

  /** The label of every finalised location is a lower bound on the cost of
      every allowed route to it. */
  ghost predicate Settled(adj: map<Location, seq<Edge>>, allowed: set<TransportMode>, cost: Edge -> real,
                          source: Location, dist: map<Location, real>, visited: set<Location>) {
    forall w :: w in visited ==> w in dist && LowerBound(adj, allowed, cost, source, w, dist[w])
  }

  /** Every allowed edge out of a location of `done` has been relaxed. */
  ghost predicate Frontier(adj: map<Location, seq<Edge>>, allowed: set<TransportMode>, cost: Edge -> real,
                           dist: map<Location, real>, done: set<Location>) {
    forall x, e {:trigger e in Neighbors(adj, x)} :: x in done && e in Neighbors(adj, x) && e.mode in allowed ==>
      x in dist && e.end in dist && dist[e.end] <= dist[x] + cost(e)
  }

  /** Where an allowed route first leaves the finalised set, at its k-th
      edge, the least queued cost is at most the cost of the route. */
  lemma CrossingBound(adj: map<Location, seq<Edge>>, allowed: set<TransportMode>, cost: Edge -> real,
                      source: Location, dist: map<Location, real>, visited: set<Location>,
                      pq: seq<QueueNode>, c: real, u: Location, p: seq<Edge>, k: nat)
    requires NonNegativeOn(adj, cost)
    requires QueueInv(dist, visited, pq)
    requires Settled(adj, allowed, cost, source, dist, visited)
    requires Frontier(adj, allowed, cost, dist, visited)
    requires forall j :: 0 <= j < |pq| ==> c <= pq[j].cost
    requires IsPath(adj, allowed, source, u, p) && k < |p|
    requires PathNode(source, p, k) in visited && PathNode(source, p, k + 1) !in visited
    ensures c <= PathCost(p, cost)
  {
    var x, e := PathNode(source, p, k), p[k];
    assert e.start == x && IsAllowedEdge(adj, allowed, e);
    assert QueueNode(e.end, dist[e.end]) in pq;
    PathPrefix(adj, allowed, source, u, p, k);
    PrefixCostBelow(adj, allowed, cost, source, u, p, k);
  }

  /** A route that starts inside `S` and ends outside it has an edge leading
      from inside to outside. */
  lemma FirstExit(s: Location, p: seq<Edge>, S: set<Location>) returns (k: nat)
    requires s in S && PathNode(s, p, |p|) !in S
    ensures k < |p| && PathNode(s, p, k) in S && PathNode(s, p, k + 1) !in S
  {
    k := 0;
    while PathNode(s, p, k + 1) in S
      invariant k < |p| && PathNode(s, p, k) in S
      decreases |p| - k
    {
      k := k + 1;
    }
  }

  /** The least queue entry of an unfinalised location carries its label, and
      that label is the cost of a cheapest allowed route to it. */
  lemma PopSettles(adj: map<Location, seq<Edge>>, allowed: set<TransportMode>, cost: Edge -> real,
                   source: Location, dist: map<Location, real>, visited: set<Location>,
                   pq: seq<QueueNode>, i: nat)
    requires NonNegativeOn(adj, cost)
    requires source in dist && dist[source] == 0.0 && visited <= dist.Keys
    requires QueueInv(dist, visited, pq)
    requires Settled(adj, allowed, cost, source, dist, visited)
    requires Frontier(adj, allowed, cost, dist, visited)
    requires i < |pq| && forall j :: 0 <= j < |pq| ==> pq[i].cost <= pq[j].cost
    requires pq[i].location !in visited
    ensures pq[i].cost == dist[pq[i].location]
    ensures LowerBound(adj, allowed, cost, source, pq[i].location, pq[i].cost)
  {
    var u, c := pq[i].location, pq[i].cost;
    assert QueueNode(u, dist[u]) in pq;
    forall p: seq<Edge> | IsPath(adj, allowed, source, u, p) ensures c <= PathCost(p, cost) {
      if source !in visited {
        assert QueueNode(source, 0.0) in pq;
        RouteCostNonNegative(adj, allowed, cost, source, u, p);
      } else {
        var k := FirstExit(source, p, visited);
        CrossingBound(adj, allowed, cost, source, dist, visited, pq, c, u, p, k);
      }
    }
  }

  /** Taking out a least entry keeps the queue invariant, with its location
      counted as finalised. */
  lemma PopKeepsQueue(dist: map<Location, real>, visited: set<Location>, pq: seq<QueueNode>, i: nat)
    requires QueueInv(dist, visited, pq)
    requires i < |pq| && forall j :: 0 <= j < |pq| ==> pq[i].cost <= pq[j].cost
    requires pq[i].location !in visited ==> pq[i].cost == dist[pq[i].location]
    ensures QueueInv(dist, visited + {pq[i].location}, RemoveAt(pq, i))
  {
    var pq' := RemoveAt(pq, i);
    forall j | 0 <= j < |pq'| ensures pq'[j] in pq {
      assert pq'[j] in pq';
    }
    forall v | v in dist && v !in visited + {pq[i].location} ensures QueueNode(v, dist[v]) in pq' {
      assert QueueNode(v, dist[v]) in pq;
    }
  }

  /** A better label is never found for a finalised location, nor for the source. */
  lemma RelaxTargetsUnfinalised(adj: map<Location, seq<Edge>>, allowed: set<TransportMode>, cost: Edge -> real,
                                source: Location, dist: map<Location, real>, prev: map<Location, Location>,
                                allEdges: seq<Edge>, edgeIdx: map<Location, nat>, visited: set<Location>,
                                order: map<Location, nat>, u: Location, c: real, e: Edge)
    requires NonNegativeOn(adj, cost)
    requires TreeInv(adj, allowed, cost, source, dist, prev, allEdges, edgeIdx, visited, order)
    requires c >= 0.0 && LabelsAtMost(dist, visited, c)
    requires e in Neighbors(adj, u)
    requires e.end !in dist || c + cost(e) < dist[e.end]
    ensures e.end !in visited && e.end != source
  {
    assert e in adj[u];
    assert cost(e) >= 0.0;
  }

  /** A recorded tree edge survives relaxing an edge into another,
      unfinalised location `v`. */
  lemma TreeEdgeFrame(adj: map<Location, seq<Edge>>, allowed: set<TransportMode>, cost: Edge -> real,
                      dist: map<Location, real>, prev: map<Location, Location>, allEdges: seq<Edge>,
                      edgeIdx: map<Location, nat>, visited: set<Location>, order: map<Location, nat>,
                      w: Location, v: Location, nd: real, u: Location, e: Edge)
    requires TreeEdge(adj, allowed, cost, dist, prev, allEdges, edgeIdx, visited, order, w)
    requires w != v && v !in visited
    ensures TreeEdge(adj, allowed, cost, dist[v := nd], prev[v := u], allEdges + [e],
                     edgeIdx[v := |allEdges|], visited, order, w)
  {
    assert (allEdges + [e])[edgeIdx[w]] == allEdges[edgeIdx[w]];
  }

  /** Relaxing an allowed edge `e` out of the just-finalised location `u`
      (label `c`) to a better label for `e.end` keeps every tree edge. */
  lemma RelaxKeepsTreeEdges(adj: map<Location, seq<Edge>>, allowed: set<TransportMode>, cost: Edge -> real,
                            dist: map<Location, real>, prev: map<Location, Location>,
                            allEdges: seq<Edge>, edgeIdx: map<Location, nat>, visited: set<Location>,
                            order: map<Location, nat>, u: Location, c: real, e: Edge)
    requires OriginsMatch(adj)
    requires TreeEdges(adj, allowed, cost, dist, prev, allEdges, edgeIdx, visited, order)
    requires u in visited && u in order && u in dist && dist[u] == c
    requires e in Neighbors(adj, u) && e.mode in allowed
    requires e.end !in visited
    ensures TreeEdges(adj, allowed, cost, dist[e.end := c + cost(e)], prev[e.end := u], allEdges + [e],
                      edgeIdx[e.end := |allEdges|], visited, order)
  {
    var v, nd := e.end, c + cost(e);
    assert e in adj[u] && e.start == u;
    var dist', prev', allEdges', edgeIdx' := dist[v := nd], prev[v := u], allEdges + [e], edgeIdx[v := |allEdges|];
    assert TreeEdge(adj, allowed, cost, dist', prev', allEdges', edgeIdx', visited, order, v) by {
      assert allEdges'[edgeIdx'[v]] == e;
      assert IsAllowedEdge(adj, allowed, e);
    }
    forall w | w in prev' ensures TreeEdge(adj, allowed, cost, dist', prev', allEdges', edgeIdx', visited, order, w) {
      if w != v {
        TreeEdgeFrame(adj, allowed, cost, dist, prev, allEdges, edgeIdx, visited, order, w, v, nd, u, e);
      }
    }
  }

  /** Relaxing to a better, non-negative label of an unfinalised location
      other than the source keeps the shape of the state. */
  lemma RelaxKeepsTreeShape(source: Location, dist: map<Location, real>, prev: map<Location, Location>,
                            edgeIdx: map<Location, nat>, visited: set<Location>, order: map<Location, nat>,
                            u: Location, v: Location, nd: real, n: nat)
    requires TreeShape(source, dist, prev, edgeIdx, visited, order)
    requires v !in visited && v != source && nd >= 0.0
    ensures TreeShape(source, dist[v := nd], prev[v := u], edgeIdx[v := n], visited, order)
  {
  }

  /** Queueing a better label `nd >= c` for an unfinalised `v` keeps the queue
      invariant, when no finalised label exceeds `c`. */
  lemma RelaxKeepsQueue(dist: map<Location, real>, visited: set<Location>, pq: seq<QueueNode>,
                        c: real, v: Location, nd: real, dist': map<Location, real>, pq': seq<QueueNode>)
    requires QueueInv(dist, visited, pq)
    requires LabelsAtMost(dist, visited, c)
    requires v !in visited && c <= nd
    requires v !in dist || nd < dist[v]
    requires dist' == dist[v := nd] && pq' == pq + [QueueNode(v, nd)]
    ensures QueueInv(dist', visited, pq')
  {
    forall j | 0 <= j < |pq'| ensures pq'[j].location in dist' && dist'[pq'[j].location] <= pq'[j].cost {
      if j < |pq| {
        assert pq'[j] == pq[j];
      }
    }
    assert QueueNode(v, nd) in pq';
  }
  /** Every allowed edge among the first `n` of `es` has been relaxed from a
      location labelled `c`. */
  ghost predicate Relaxed(allowed: set<TransportMode>, cost: Edge -> real, dist: map<Location, real>,
                          c: real, es: seq<Edge>, n: nat) {
    forall k :: 0 <= k < n && k < |es| && es[k].mode in allowed ==>
      es[k].end in dist && dist[es[k].end] <= c + cost(es[k])
  }

  /** Lowering the label of an unfinalised location `v` (or labelling it)
      keeps the finalised labels settled and every relaxation done so far. */
  lemma ImproveKeeps(adj: map<Location, seq<Edge>>, allowed: set<TransportMode>, cost: Edge -> real,
                     source: Location, dist: map<Location, real>, visited: set<Location>, done: set<Location>,
                     c: real, es: seq<Edge>, n: nat, v: Location, nd: real)
    requires v !in visited && done <= visited
    requires v in dist ==> nd < dist[v]
    requires Settled(adj, allowed, cost, source, dist, visited)
    requires Frontier(adj, allowed, cost, dist, done)
    requires Relaxed(allowed, cost, dist, c, es, n)
    ensures Settled(adj, allowed, cost, source, dist[v := nd], visited)
    ensures Frontier(adj, allowed, cost, dist[v := nd], done)
    ensures Relaxed(allowed, cost, dist[v := nd], c, es, n)
  {
  }

  /** Once every edge out of `u` has been relaxed, `u` joins the frontier. */
  lemma RelaxedJoinsFrontier(adj: map<Location, seq<Edge>>, allowed: set<TransportMode>, cost: Edge -> real,
                             dist: map<Location, real>, done: set<Location>, u: Location)
    requires Frontier(adj, allowed, cost, dist, done)
    requires u in dist && Relaxed(allowed, cost, dist, dist[u], Neighbors(adj, u), |Neighbors(adj, u)|)
    ensures Frontier(adj, allowed, cost, dist, done + {u})
  {
    var es := Neighbors(adj, u);
    forall e | e in es && e.mode in allowed ensures e.end in dist && dist[e.end] <= dist[u] + cost(e) {
      var k :| 0 <= k < |es| && es[k] == e;
    }
  }

  /** A recorded tree edge survives finalising the unfinalised location `u`
      as the `n`-th one, when every finalised location is numbered below `n`. */
  lemma FinaliseKeepsTreeEdge(adj: map<Location, seq<Edge>>, allowed: set<TransportMode>, cost: Edge -> real,
                              dist: map<Location, real>, prev: map<Location, Location>,
                              allEdges: seq<Edge>, edgeIdx: map<Location, nat>, visited: set<Location>,
                              order: map<Location, nat>, u: Location, n: nat, v: Location)
    requires TreeEdge(adj, allowed, cost, dist, prev, allEdges, edgeIdx, visited, order, v)
    requires u !in visited && u !in order
    requires forall w :: w in order ==> order[w] < n
    ensures TreeEdge(adj, allowed, cost, dist, prev, allEdges, edgeIdx, visited + {u}, order[u := n], v)
  {
  }

  /** Finalising the unfinalised location `u` as the `n`-th one keeps every
      tree edge, when every finalised location is numbered below `n`. */
  lemma FinaliseKeepsTreeEdges(adj: map<Location, seq<Edge>>, allowed: set<TransportMode>, cost: Edge -> real,
                               dist: map<Location, real>, prev: map<Location, Location>,
                               allEdges: seq<Edge>, edgeIdx: map<Location, nat>, visited: set<Location>,
                               order: map<Location, nat>, u: Location, n: nat)
    requires TreeEdges(adj, allowed, cost, dist, prev, allEdges, edgeIdx, visited, order)
    requires u !in visited && u !in order
    requires forall w :: w in order ==> order[w] < n
    ensures TreeEdges(adj, allowed, cost, dist, prev, allEdges, edgeIdx, visited + {u}, order[u := n])
  {
    forall v | v in prev
      ensures TreeEdge(adj, allowed, cost, dist, prev, allEdges, edgeIdx, visited + {u}, order[u := n], v)
    {
      FinaliseKeepsTreeEdge(adj, allowed, cost, dist, prev, allEdges, edgeIdx, visited, order, u, n, v);
    }
  }

  /** Finalising the unfinalised, labelled location `u` as the next one in
      order keeps the tree invariant. */
  lemma FinaliseKeepsTree(adj: map<Location, seq<Edge>>, allowed: set<TransportMode>, cost: Edge -> real,
                          source: Location, dist: map<Location, real>, prev: map<Location, Location>,
                          allEdges: seq<Edge>, edgeIdx: map<Location, nat>, visited: set<Location>,
                          order: map<Location, nat>, finalised: seq<Location>, u: Location)
    requires TreeInv(adj, allowed, cost, source, dist, prev, allEdges, edgeIdx, visited, order)
    requires OrderInv(order, finalised)
    requires u in dist && u !in visited
    ensures TreeInv(adj, allowed, cost, source, dist, prev, allEdges, edgeIdx, visited + {u},
                    order[u := |finalised|])
  {
    assert u !in order;
    FinaliseKeepsTreeEdges(adj, allowed, cost, dist, prev, allEdges, edgeIdx, visited, order, u, |finalised|);
  }

  /** Numbering a new location next keeps the order invariant. */
  lemma FinaliseKeepsOrder(order: map<Location, nat>, finalised: seq<Location>, u: Location)
    requires OrderInv(order, finalised) && u !in order
    ensures OrderInv(order[u := |finalised|], finalised + [u])
  {
    var order', finalised' := order[u := |finalised|], finalised + [u];
    forall i | 0 <= i < |finalised'| ensures finalised'[i] in order' && order'[finalised'[i]] == i {
      if i < |finalised| {
        assert finalised'[i] == finalised[i];
      }
    }
  }

  /** When the queue is empty, every labelled location is finalised. */
  lemma ExhaustedQueue(dist: map<Location, real>, visited: set<Location>)
    requires QueueInv(dist, visited, [])
    ensures dist.Keys <= visited
  {
  }

  /** When every labelled location is finalised and relaxed, the finalised
      set holds every allowed neighbour of its members. */
  lemma FinalisedClosed(adj: map<Location, seq<Edge>>, allowed: set<TransportMode>, cost: Edge -> real,
                        dist: map<Location, real>, visited: set<Location>)
    requires dist.Keys <= visited && Frontier(adj, allowed, cost, dist, visited)
    ensures forall x, e {:trigger e in Neighbors(adj, x)} :: x in visited && e in Neighbors(adj, x) && e.mode in allowed ==> e.end in visited
  {
  }

  /** A location outside a set that holds the source and is closed under
      allowed edges cannot be reached. */
  lemma ExhaustedSearch(adj: map<Location, seq<Edge>>, allowed: set<TransportMode>,
                        source: Location, visited: set<Location>, t: Location)
    requires source in visited && t !in visited
    requires forall x, e {:trigger e in Neighbors(adj, x)} :: x in visited && e in Neighbors(adj, x) && e.mode in allowed ==> e.end in visited
    ensures !Reachable(adj, allowed, source, t)
  {
    forall p | IsPath(adj, allowed, source, t, p) ensures false {
      ClosedSetHoldsReachable(adj, allowed, source, visited, t, p);
    }
  }

  /** The route of no edges is a cheapest route from a location to itself. */
  lemma StayIsShortest(adj: map<Location, seq<Edge>>, allowed: set<TransportMode>, cost: Edge -> real, s: Location)
    requires NonNegativeOn(adj, cost)
    ensures ShortestRoute(adj, allowed, cost, s, s, [])
  {
    forall p | IsPath(adj, allowed, s, s, p) ensures 0.0 <= PathCost(p, cost) {
      RouteCostNonNegative(adj, allowed, cost, s, s, p);
    }
  }

  /** Following the recorded edge of `v` backwards extends a route from `v`
      to `t` into one from its predecessor, and keeps the labels consistent. */
  lemma TreeStep(adj: map<Location, seq<Edge>>, allowed: set<TransportMode>, cost: Edge -> real,
                 dist: map<Location, real>, prev: map<Location, Location>, allEdges: seq<Edge>,
                 edgeIdx: map<Location, nat>, visited: set<Location>, order: map<Location, nat>,
                 v: Location, t: Location, p: seq<Edge>)
    requires TreeEdge(adj, allowed, cost, dist, prev, allEdges, edgeIdx, visited, order, v)
    requires t in dist && IsPath(adj, allowed, v, t, p) && dist[v] + PathCost(p, cost) == dist[t]
    ensures IsPath(adj, allowed, prev[v], t, [allEdges[edgeIdx[v]]] + p)
    ensures dist[prev[v]] + PathCost([allEdges[edgeIdx[v]]] + p, cost) == dist[t]
  {
    PathPrepend(adj, allowed, t, p, allEdges[edgeIdx[v]]);
    PathCostCons(allEdges[edgeIdx[v]], p, cost);
  }

  /** The invariants of relaxing the edges out of the just-finalised `u`,
      whose label is `c`, after the first `n` of them. */
  ghost predicate RelaxInv(adj: map<Location, seq<Edge>>, allowed: set<TransportMode>, cost: Edge -> real,
                           source: Location, dist: map<Location, real>, prev: map<Location, Location>,
                           allEdges: seq<Edge>, edgeIdx: map<Location, nat>, pq: seq<QueueNode>,
                           visited: set<Location>, order: map<Location, nat>, done: set<Location>,
                           u: Location, c: real, n: nat) {
    && TreeInv(adj, allowed, cost, source, dist, prev, allEdges, edgeIdx, visited, order)
    && QueueInv(dist, visited, pq)
    && Settled(adj, allowed, cost, source, dist, visited)
    && Frontier(adj, allowed, cost, dist, done)
    && Relaxed(allowed, cost, dist, c, Neighbors(adj, u), n)
    && done <= visited && u in visited && u in dist && dist[u] == c
    && LabelsAtMost(dist, visited, c)
  }

  /** Relaxing the next allowed edge `e` out of `u` to a better label keeps
      the relaxation invariants, with `e` counted as relaxed. */
  lemma RelaxStep(adj: map<Location, seq<Edge>>, allowed: set<TransportMode>, cost: Edge -> real,
                  source: Location, dist: map<Location, real>, prev: map<Location, Location>,
                  allEdges: seq<Edge>, edgeIdx: map<Location, nat>, pq: seq<QueueNode>,
                  visited: set<Location>, order: map<Location, nat>, done: set<Location>,
                  u: Location, c: real, n: nat, e: Edge,
                  dist': map<Location, real>, prev': map<Location, Location>,
                  allEdges': seq<Edge>, edgeIdx': map<Location, nat>, pq': seq<QueueNode>)
    requires OriginsMatch(adj) && NonNegativeOn(adj, cost)
    requires RelaxInv(adj, allowed, cost, source, dist, prev, allEdges, edgeIdx, pq, visited, order, done, u, c, n)
    requires n < |Neighbors(adj, u)| && e == Neighbors(adj, u)[n] && e.mode in allowed
    requires e.end !in dist || c + cost(e) < dist[e.end]
    requires dist' == dist[e.end := c + cost(e)] && prev' == prev[e.end := u]
    requires allEdges' == allEdges + [e] && edgeIdx' == edgeIdx[e.end := |allEdges|]
    requires pq' == pq + [QueueNode(e.end, c + cost(e))]
    ensures RelaxInv(adj, allowed, cost, source, dist', prev', allEdges', edgeIdx', pq', visited, order, done, u, c, n + 1)
  {
    assert e in adj[u];
    RelaxTargetsUnfinalised(adj, allowed, cost, source, dist, prev, allEdges, edgeIdx, visited, order, u, c, e);
    RelaxStepTree(adj, allowed, cost, source, dist, prev, allEdges, edgeIdx, visited, order, u, c, e,
                  dist', prev', allEdges', edgeIdx');
    RelaxKeepsQueue(dist, visited, pq, c, e.end, c + cost(e), dist', pq');
    RelaxStepLabels(adj, allowed, cost, source, dist, visited, done, u, c, Neighbors(adj, u), n, e, dist');
  }

  /** The tree half of RelaxStep. */
  lemma RelaxStepTree(adj: map<Location, seq<Edge>>, allowed: set<TransportMode>, cost: Edge -> real,
                      source: Location, dist: map<Location, real>, prev: map<Location, Location>,
                      allEdges: seq<Edge>, edgeIdx: map<Location, nat>,
                      visited: set<Location>, order: map<Location, nat>,
                      u: Location, c: real, e: Edge,
                      dist': map<Location, real>, prev': map<Location, Location>,
                      allEdges': seq<Edge>, edgeIdx': map<Location, nat>)
    requires OriginsMatch(adj) && cost(e) >= 0.0
    requires TreeInv(adj, allowed, cost, source, dist, prev, allEdges, edgeIdx, visited, order)
    requires u in visited && u in order && u in dist && dist[u] == c
    requires e in Neighbors(adj, u) && e.mode in allowed
    requires e.end !in visited && e.end != source && c >= 0.0
    requires dist' == dist[e.end := c + cost(e)] && prev' == prev[e.end := u]
    requires allEdges' == allEdges + [e] && edgeIdx' == edgeIdx[e.end := |allEdges|]
    ensures TreeInv(adj, allowed, cost, source, dist', prev', allEdges', edgeIdx', visited, order)
  {
    RelaxKeepsTreeEdges(adj, allowed, cost, dist, prev, allEdges, edgeIdx, visited, order, u, c, e);
    RelaxKeepsTreeShape(source, dist, prev, edgeIdx, visited, order, u, e.end, c + cost(e), |allEdges|);
  }

  /** The label half of RelaxStep, for the edge `e == es[n]`. */
  lemma RelaxStepLabels(adj: map<Location, seq<Edge>>, allowed: set<TransportMode>, cost: Edge -> real,
                        source: Location, dist: map<Location, real>, visited: set<Location>, done: set<Location>,
                        u: Location, c: real, es: seq<Edge>, n: nat, e: Edge,
                        dist': map<Location, real>)
    requires n < |es| && e == es[n]
    requires Settled(adj, allowed, cost, source, dist, visited)
    requires Frontier(adj, allowed, cost, dist, done)
    requires Relaxed(allowed, cost, dist, c, es, n)
    requires done <= visited && u in visited && u in dist && dist[u] == c
    requires LabelsAtMost(dist, visited, c)
    requires e.end !in visited
    requires e.end !in dist || c + cost(e) < dist[e.end]
    requires dist' == dist[e.end := c + cost(e)]
    ensures Settled(adj, allowed, cost, source, dist', visited)
    ensures Frontier(adj, allowed, cost, dist', done)
    ensures Relaxed(allowed, cost, dist', c, es, n + 1)
    ensures u in dist' && dist'[u] == c
    ensures LabelsAtMost(dist', visited, c)
  {
    ImproveKeeps(adj, allowed, cost, source, dist, visited, done, c, es, n, e.end, c + cost(e));
    RelaxedNext(allowed, cost, dist[e.end := c + cost(e)], c, es, n);
    LabelsBelow(dist, visited, c, e.end, c + cost(e));
  }

  lemma RelaxedNext(allowed: set<TransportMode>, cost: Edge -> real, dist: map<Location, real>,
                    c: real, es: seq<Edge>, n: nat)
    requires n < |es| && Relaxed(allowed, cost, dist, c, es, n)
    requires es[n].mode in allowed ==> es[n].end in dist && dist[es[n].end] <= c + cost(es[n])
    ensures Relaxed(allowed, cost, dist, c, es, n + 1)
  {
  }

  lemma LabelsBelow(dist: map<Location, real>, visited: set<Location>, c: real, v: Location, nd: real)
    requires LabelsAtMost(dist, visited, c)
    requires v !in visited
    ensures LabelsAtMost(dist[v := nd], visited, c)
  {
  }

  /** Passing over the next edge when its mode is not allowed, or its end
      already has a label no worse, keeps the relaxation invariants. */
  lemma SkipStep(adj: map<Location, seq<Edge>>, allowed: set<TransportMode>, cost: Edge -> real,
                 source: Location, dist: map<Location, real>, prev: map<Location, Location>,
                 allEdges: seq<Edge>, edgeIdx: map<Location, nat>, pq: seq<QueueNode>,
                 visited: set<Location>, order: map<Location, nat>, done: set<Location>,
                 u: Location, c: real, n: nat)
    requires RelaxInv(adj, allowed, cost, source, dist, prev, allEdges, edgeIdx, pq, visited, order, done, u, c, n)
    requires n < |Neighbors(adj, u)|
    requires var e := Neighbors(adj, u)[n]; e.mode in allowed ==> e.end in dist && dist[e.end] <= c + cost(e)
    ensures RelaxInv(adj, allowed, cost, source, dist, prev, allEdges, edgeIdx, pq, visited, order, done, u, c, n + 1)
  {
    RelaxedNext(allowed, cost, dist, c, Neighbors(adj, u), n);
  }

  /** What the two phases of the search deliver makes the route a cheapest
      one: a finalised destination reached along the route at the cost of its
      label, an unlabelled destination that cannot be reached, or no travel
      at all. */
  lemma RouteFromTree(adj: map<Location, seq<Edge>>, allowed: set<TransportMode>, cost: Edge -> real,
                      source: Location, destination: Location, dist: map<Location, real>,
                      visited: set<Location>, path: seq<Edge>)
    requires NonNegativeOn(adj, cost)
    requires Settled(adj, allowed, cost, source, dist, visited)
    requires destination !in dist ==> path == [] && !Reachable(adj, allowed, source, destination)
    requires source == destination ==> path == []
    requires destination in dist && source != destination ==>
      destination in visited && IsPath(adj, allowed, source, destination, path) &&
      PathCost(path, cost) == dist[destination]
    ensures ShortestRoute(adj, allowed, cost, source, destination, path)
  {
    if source == destination {
      StayIsShortest(adj, allowed, cost, source);
    } else if destination in dist {
      assert path != [];
      assert Reachable(adj, allowed, source, destination);
    }
  }

  /** The finalised locations are listed without repetition, and they are
      exactly the finalised set. */
  lemma FinalisedInOrder(order: map<Location, nat>, visited: set<Location>, finalised: seq<Location>)
    requires OrderInv(order, finalised)
    requires forall v :: v in order ==> v in visited
    ensures forall i, j :: 0 <= i < j < |finalised| ==> finalised[i] != finalised[j]
    ensures forall v :: v in finalised ==> v in visited
  {
    forall i, j | 0 <= i < j < |finalised| ensures finalised[i] != finalised[j] {
      assert order[finalised[i]] == i && order[finalised[j]] == j;
    }
  }

  /** Finalising the location of a least queue entry that is not yet
      finalised, as the next one in order: its entry carries its label, the
      state is ready for the relaxation of its edges, the source is the first
      location finalised, and one location fewer is left to finalise. */
  lemma FinaliseStep(adj: map<Location, seq<Edge>>, allowed: set<TransportMode>, cost: Edge -> real,
                     source: Location, destination: Location, known: set<Location>,
                     dist: map<Location, real>, prev: map<Location, Location>,
                     allEdges: seq<Edge>, edgeIdx: map<Location, nat>, visited: set<Location>,
                     order: map<Location, nat>, finalised: seq<Location>, pq: seq<QueueNode>, i: nat)
    requires NonNegativeOn(adj, cost)
    requires SearchInv(adj, allowed, cost, source, destination, known,
                       dist, prev, allEdges, edgeIdx, visited, order, finalised, pq)
    requires i < |pq| && forall j :: 0 <= j < |pq| ==> pq[i].cost <= pq[j].cost
    requires pq[i].location !in visited
    ensures RelaxInv(adj, allowed, cost, source, dist, prev, allEdges, edgeIdx, RemoveAt(pq, i),
                     visited + {pq[i].location}, order[pq[i].location := |finalised|],
                     visited, pq[i].location, pq[i].cost, 0)
    ensures OrderInv(order[pq[i].location := |finalised|], finalised + [pq[i].location])
    ensures (finalised + [pq[i].location])[0] == source
    ensures |known - (visited + {pq[i].location})| < |known - visited|
  {
    var u := pq[i].location;
    assert QueueNode(u, dist[u]) in pq;
    PopSettles(adj, allowed, cost, source, dist, visited, pq, i);
    PopKeepsQueue(dist, visited, pq, i);
    FinaliseKeepsTree(adj, allowed, cost, source, dist, prev, allEdges, edgeIdx, visited, order, finalised, u);
    FinaliseKeepsOrder(order, finalised, u);
    assert LabelsAtMost(dist, visited + {u}, pq[i].cost);
    if finalised == [] {
      assert pq == [QueueNode(source, 0.0)];
    }
    assert known - (visited + {u}) == (known - visited) - {u};
    assert u in known - visited;
  }

  /** Taking out a stale entry, one whose location is already finalised,
      keeps every invariant of the search loop. */
  lemma SkipStale(adj: map<Location, seq<Edge>>, allowed: set<TransportMode>, cost: Edge -> real,
                  source: Location, destination: Location, known: set<Location>,
                  dist: map<Location, real>, prev: map<Location, Location>,
                  allEdges: seq<Edge>, edgeIdx: map<Location, nat>, visited: set<Location>,
                  order: map<Location, nat>, finalised: seq<Location>, pq: seq<QueueNode>, i: nat)
    requires SearchInv(adj, allowed, cost, source, destination, known,
                       dist, prev, allEdges, edgeIdx, visited, order, finalised, pq)
    requires i < |pq| && forall j :: 0 <= j < |pq| ==> pq[i].cost <= pq[j].cost
    requires pq[i].location in visited
    ensures SearchInv(adj, allowed, cost, source, destination, known,
                      dist, prev, allEdges, edgeIdx, visited, order, finalised, RemoveAt(pq, i))
  {
    PopKeepsQueue(dist, visited, pq, i);
    assert visited + {pq[i].location} == visited;
  }

  /** Once the edges of the newly finalised `u` are relaxed, the invariants
      of the search loop hold again. */
  lemma ResumeSearch(adj: map<Location, seq<Edge>>, allowed: set<TransportMode>, cost: Edge -> real,
                     source: Location, destination: Location, known: set<Location>,
                     dist: map<Location, real>, prev: map<Location, Location>, allEdges: seq<Edge>,
                     edgeIdx: map<Location, nat>, visited: set<Location>, order: map<Location, nat>,
                     finalised: seq<Location>, pq: seq<QueueNode>, done: set<Location>, u: Location)
    requires TreeInv(adj, allowed, cost, source, dist, prev, allEdges, edgeIdx, visited, order)
    requires QueueInv(dist, visited, pq)
    requires Settled(adj, allowed, cost, source, dist, visited)
    requires Frontier(adj, allowed, cost, dist, done + {u})
    requires OrderInv(order, finalised)
    requires visited == done + {u} && dist.Keys <= known
    requires destination !in done && u != destination
    requires finalised != [] && finalised[0] == source
    ensures SearchInv(adj, allowed, cost, source, destination, known,
                      dist, prev, allEdges, edgeIdx, visited, order, finalised, pq)
  {
  }

  /** The invariants of the search loop, where `known` holds every location
      a label can be given to. */
  ghost predicate SearchInv(adj: map<Location, seq<Edge>>, allowed: set<TransportMode>, cost: Edge -> real,
                            source: Location, destination: Location, known: set<Location>,
                            dist: map<Location, real>, prev: map<Location, Location>, allEdges: seq<Edge>,
                            edgeIdx: map<Location, nat>, visited: set<Location>, order: map<Location, nat>,
                            finalised: seq<Location>, pq: seq<QueueNode>) {
    && TreeInv(adj, allowed, cost, source, dist, prev, allEdges, edgeIdx, visited, order)
    && OrderInv(order, finalised)
    && QueueInv(dist, visited, pq)
    && Settled(adj, allowed, cost, source, dist, visited)
    && Frontier(adj, allowed, cost, dist, visited)
    && dist.Keys <= known
    && destination !in visited
    && (finalised == [] ==> pq == [QueueNode(source, 0.0)])
    && (finalised != [] ==> finalised[0] == source)
  }

  /** What the search phase delivers: the tree and order invariants, settled
      labels, a finalised set made of the source and network locations, the
      destination finalised last when it is finalised at all, and an
      unlabelled destination only when it cannot be reached. */
  ghost predicate Explored(adj: map<Location, seq<Edge>>, allowed: set<TransportMode>, cost: Edge -> real,
                           source: Location, destination: Location, known: set<Location>,
                           dist: map<Location, real>, prev: map<Location, Location>, allEdges: seq<Edge>,
                           edgeIdx: map<Location, nat>, visited: set<Location>, order: map<Location, nat>,
                           finalised: seq<Location>) {
    && TreeInv(adj, allowed, cost, source, dist, prev, allEdges, edgeIdx, visited, order)
    && Settled(adj, allowed, cost, source, dist, visited)
    && OrderInv(order, finalised)
    && finalised != [] && finalised[0] == source
    && visited <= known
    && (destination in visited ==> finalised[|finalised| - 1] == destination)
    && (destination in dist ==> destination in visited)
    && (destination !in dist ==> !Reachable(adj, allowed, source, destination))
    && (destination !in visited ==> forall v :: Reachable(adj, allowed, source, v) ==> v in visited)
  }

  /** Finalising the destination, when it is the least queue entry, ends
      the search phase. */
  lemma FinaliseReached(adj: map<Location, seq<Edge>>, allowed: set<TransportMode>, cost: Edge -> real,
                        source: Location, destination: Location, known: set<Location>,
                        dist: map<Location, real>, prev: map<Location, Location>,
                        allEdges: seq<Edge>, edgeIdx: map<Location, nat>, visited: set<Location>,
                        order: map<Location, nat>, finalised: seq<Location>, pq: seq<QueueNode>, i: nat)
    requires NonNegativeOn(adj, cost)
    requires SearchInv(adj, allowed, cost, source, destination, known,
                       dist, prev, allEdges, edgeIdx, visited, order, finalised, pq)
    requires i < |pq| && forall j :: 0 <= j < |pq| ==> pq[i].cost <= pq[j].cost
    requires pq[i].location == destination
    ensures Explored(adj, allowed, cost, source, destination, known, dist, prev, allEdges, edgeIdx,
                     visited + {pq[i].location}, order[pq[i].location := |finalised|],
                     finalised + [pq[i].location])
  {
    var u := pq[i].location;
    assert QueueNode(u, dist[u]) in pq;
    PopSettles(adj, allowed, cost, source, dist, visited, pq, i);
    FinaliseKeepsTree(adj, allowed, cost, source, dist, prev, allEdges, edgeIdx, visited, order, finalised, u);
    FinaliseKeepsOrder(order, finalised, u);
    if finalised == [] {
      assert pq == [QueueNode(source, 0.0)];
    }
  }

  /** An empty queue ends the search phase: then every labelled location is
      finalised, and an unlabelled destination cannot be reached. */
  lemma ExhaustedExplored(adj: map<Location, seq<Edge>>, allowed: set<TransportMode>, cost: Edge -> real,
                          source: Location, destination: Location, known: set<Location>,
                          dist: map<Location, real>, prev: map<Location, Location>, allEdges: seq<Edge>,
                          edgeIdx: map<Location, nat>, visited: set<Location>, order: map<Location, nat>,
                          finalised: seq<Location>)
    requires SearchInv(adj, allowed, cost, source, destination, known,
                       dist, prev, allEdges, edgeIdx, visited, order, finalised, [])
    ensures Explored(adj, allowed, cost, source, destination, known, dist, prev, allEdges, edgeIdx, visited, order, finalised)
  {
    ExhaustedQueue(dist, visited);
    assert source in visited;
    FinalisedClosed(adj, allowed, cost, dist, visited);
    if destination !in dist {
      ExhaustedSearch(adj, allowed, source, visited, destination);
    }
    forall v | Reachable(adj, allowed, source, v) ensures v in visited {
      var p :| IsPath(adj, allowed, source, v, p);
      ClosedSetHoldsReachable(adj, allowed, source, visited, v, p);
    }
  }

  /** The log of a finished search phase lists exactly the finalised
      locations; it holds the destination whenever the destination can be
      reached, and when it does not hold the destination the queue ran dry,
      so it holds every location that can be reached. */
  lemma ExploredLog(adj: map<Location, seq<Edge>>, allowed: set<TransportMode>, cost: Edge -> real,
                    source: Location, destination: Location, known: set<Location>,
                    dist: map<Location, real>, prev: map<Location, Location>, allEdges: seq<Edge>,
                    edgeIdx: map<Location, nat>, visited: set<Location>, order: map<Location, nat>,
                    finalised: seq<Location>)
    requires Explored(adj, allowed, cost, source, destination, known, dist, prev, allEdges, edgeIdx, visited, order, finalised)
    ensures forall v :: v in finalised <==> v in visited
    ensures Reachable(adj, allowed, source, destination) ==> destination in finalised
    ensures destination !in finalised ==> forall v :: Reachable(adj, allowed, source, v) ==> v in finalised
  {
    forall v ensures v in finalised <==> v in visited {
      if v in visited {
        assert v in order && finalised[order[v]] == v;
      }
      if v in finalised {
        var i :| 0 <= i < |finalised| && finalised[i] == v;
        assert finalised[i] in order;
      }
    }
  }
}
