// Routes through the network restricted to a set of allowed modes, their
// costs under an edge-cost function, and what "shortest route" means.

module Paths {
  import opened Routing
  import opened Graph

  /** `e` is stored in the network under its own origin and its mode is allowed. */
  ghost predicate IsAllowedEdge(adj: map<Location, seq<Edge>>, allowed: set<TransportMode>, e: Edge) {
    e in Neighbors(adj, e.start) && e.mode in allowed
  }

  /** The k-th location visited by route `p` from `s`: `s` itself, then the
      end of each edge in turn. */
  function PathNode(s: Location, p: seq<Edge>, k: nat): Location
    requires k <= |p|
  {
    if k == 0 then s else p[k - 1].end
  }

  /** `p` leads from `s` to `t` along allowed network edges, each edge
      starting where the previous one ended. */
  ghost predicate IsPath(adj: map<Location, seq<Edge>>, allowed: set<TransportMode>,
                         s: Location, t: Location, p: seq<Edge>) {
    && PathNode(s, p, |p|) == t
    && forall i :: 0 <= i < |p| ==> p[i].start == PathNode(s, p, i) && IsAllowedEdge(adj, allowed, p[i])
  }

  /** The sum of `cost` over the edges of `p`. */
  function PathCost(p: seq<Edge>, cost: Edge -> real): real {
    if p == [] then 0.0 else cost(p[0]) + PathCost(p[1..], cost)
  }

  /** `cost` is non-negative on every stored edge. */
  ghost predicate NonNegativeOn(adj: map<Location, seq<Edge>>, cost: Edge -> real) {
    forall u, e {:trigger e in adj[u]} :: u in adj && e in adj[u] ==> cost(e) >= 0.0
  }

  ghost predicate Reachable(adj: map<Location, seq<Edge>>, allowed: set<TransportMode>, s: Location, t: Location) {
    exists p :: IsPath(adj, allowed, s, t, p)
  }

  /** No allowed route from `s` to `t` costs less than `d`. */
  ghost predicate LowerBound(adj: map<Location, seq<Edge>>, allowed: set<TransportMode>, cost: Edge -> real,
                             s: Location, t: Location, d: real) {
    forall p :: IsPath(adj, allowed, s, t, p) ==> d <= PathCost(p, cost)
  }

  /** What the search promises about its result `route`: it is empty exactly
      when `s == t` or `t` cannot be reached; otherwise it is an allowed route
      from `s` to `t`; and no allowed route from `s` to `t` is cheaper. */
  ghost predicate ShortestRoute(adj: map<Location, seq<Edge>>, allowed: set<TransportMode>, cost: Edge -> real,
                                s: Location, t: Location, route: seq<Edge>) {
    && (route == [] <==> s == t || !Reachable(adj, allowed, s, t))
    && (route != [] ==> IsPath(adj, allowed, s, t, route))
    && LowerBound(adj, allowed, cost, s, t, PathCost(route, cost))
  }

  lemma {:induction false} PathCostAppend(p: seq<Edge>, q: seq<Edge>, cost: Edge -> real)
    ensures PathCost(p + q, cost) == PathCost(p, cost) + PathCost(q, cost)
  {
    if p == [] {
      assert p + q == q;
    } else {
      assert (p + q)[1..] == p[1..] + q;
      PathCostAppend(p[1..], q, cost);
    }
  }

  lemma {:induction false} PathCostNonNegative(p: seq<Edge>, cost: Edge -> real)
    requires forall i :: 0 <= i < |p| ==> cost(p[i]) >= 0.0
    ensures PathCost(p, cost) >= 0.0
  {
    if p != [] {
      assert forall i :: 0 <= i < |p[1..]| ==> p[1..][i] == p[i + 1];
      PathCostNonNegative(p[1..], cost);
    }
  }

  /** Two cost functions that agree on the edges of `p` give `p` the same cost. */
  lemma {:induction false} PathCostCongruent(p: seq<Edge>, f: Edge -> real, g: Edge -> real)
    requires forall i :: 0 <= i < |p| ==> f(p[i]) == g(p[i])
    ensures PathCost(p, f) == PathCost(p, g)
  {
    if p != [] {
      assert forall i :: 0 <= i < |p[1..]| ==> p[1..][i] == p[i + 1];
      PathCostCongruent(p[1..], f, g);
    }
  }

  /** Under a cost that is non-negative on stored edges, every route costs at least 0. */
  lemma RouteCostNonNegative(adj: map<Location, seq<Edge>>, allowed: set<TransportMode>, cost: Edge -> real,
                             s: Location, t: Location, p: seq<Edge>)
    requires NonNegativeOn(adj, cost) && IsPath(adj, allowed, s, t, p)
    ensures PathCost(p, cost) >= 0.0
  {
    forall i | 0 <= i < |p| ensures cost(p[i]) >= 0.0 {
      assert IsAllowedEdge(adj, allowed, p[i]);
    }
    PathCostNonNegative(p, cost);
  }

  /** Under a cost that is non-negative on stored edges, every suffix of a
      route costs at least 0. */
  lemma SuffixCostNonNegative(adj: map<Location, seq<Edge>>, allowed: set<TransportMode>, cost: Edge -> real,
                              s: Location, t: Location, p: seq<Edge>, k: nat)
    requires NonNegativeOn(adj, cost) && IsPath(adj, allowed, s, t, p) && k <= |p|
    ensures PathCost(p[k..], cost) >= 0.0
  {
    var q := p[k..];
    forall i | 0 <= i < |q| ensures cost(q[i]) >= 0.0 {
      assert q[i] == p[k + i];
      assert IsAllowedEdge(adj, allowed, p[k + i]);
    }
    PathCostNonNegative(q, cost);
  }

  /** Putting an edge in front of a route adds its cost. */
  lemma PathCostCons(e: Edge, q: seq<Edge>, cost: Edge -> real)
    ensures PathCost([e] + q, cost) == cost(e) + PathCost(q, cost)
  {
    assert ([e] + q)[1..] == q;
  }

  /** The cost of a route splits at any edge. */
  lemma SplitCost(p: seq<Edge>, k: nat, cost: Edge -> real)
    requires k < |p|
    ensures PathCost(p, cost) == PathCost(p[..k], cost) + cost(p[k]) + PathCost(p[k + 1..], cost)
  {
    var pre, tail := p[..k], p[k..];
    assert p == pre + tail;
    PathCostAppend(pre, tail, cost);
    assert tail == [p[k]] + p[k + 1..];
    PathCostCons(p[k], p[k + 1..], cost);
  }

  /** Under a non-negative cost, a prefix of a route followed by the next
      edge costs no more than the whole route. */
  lemma PrefixCostBelow(adj: map<Location, seq<Edge>>, allowed: set<TransportMode>, cost: Edge -> real,
                        s: Location, t: Location, p: seq<Edge>, k: nat)
    requires NonNegativeOn(adj, cost) && IsPath(adj, allowed, s, t, p) && k < |p|
    ensures PathCost(p[..k], cost) + cost(p[k]) <= PathCost(p, cost)
  {
    SplitCost(p, k, cost);
    SuffixCostNonNegative(adj, allowed, cost, s, t, p, k + 1);
  }

  /** Every prefix of a route is a route to the location it reaches. */
  lemma PathPrefix(adj: map<Location, seq<Edge>>, allowed: set<TransportMode>,
                   s: Location, t: Location, p: seq<Edge>, k: nat)
    requires IsPath(adj, allowed, s, t, p) && k <= |p|
    ensures IsPath(adj, allowed, s, PathNode(s, p, k), p[..k])
  {
    var q := p[..k];
    forall i | 0 <= i <= k ensures PathNode(s, q, i) == PathNode(s, p, i) {
      if i > 0 {
        assert q[i - 1] == p[i - 1];
      }
    }
    forall i | 0 <= i < |q| ensures q[i].start == PathNode(s, q, i) && IsAllowedEdge(adj, allowed, q[i]) {
      assert q[i] == p[i];
    }
  }

  /** An allowed edge into the start of a route extends it backwards. */
  lemma PathPrepend(adj: map<Location, seq<Edge>>, allowed: set<TransportMode>,
                    t: Location, p: seq<Edge>, e: Edge)
    requires IsAllowedEdge(adj, allowed, e) && IsPath(adj, allowed, e.end, t, p)
    ensures IsPath(adj, allowed, e.start, t, [e] + p)
  {
    var q := [e] + p;
    forall i | 0 < i <= |q| ensures PathNode(e.start, q, i) == PathNode(e.end, p, i - 1) {
      if i > 1 {
        assert q[i - 1] == p[i - 2];
      }
    }
    forall i | 0 <= i < |q| ensures q[i].start == PathNode(e.start, q, i) && IsAllowedEdge(adj, allowed, q[i]) {
      if i > 0 {
        assert q[i] == p[i - 1];
        assert p[i - 1].start == PathNode(e.end, p, i - 1);
      }
    }
  }

  /** A set that holds `s` and every allowed neighbour of its members holds
      every location reachable from `s`. */
  lemma {:induction false} ClosedSetHoldsReachable(adj: map<Location, seq<Edge>>, allowed: set<TransportMode>,
                                                   s: Location, S: set<Location>, t: Location, p: seq<Edge>)
    requires s in S
    requires forall x, e {:trigger e in Neighbors(adj, x)} :: x in S && e in Neighbors(adj, x) && e.mode in allowed ==> e.end in S
    requires IsPath(adj, allowed, s, t, p)
    ensures t in S
    decreases |p|
  {
    if p != [] {
      var k := |p| - 1;
      PathPrefix(adj, allowed, s, t, p, k);
      ClosedSetHoldsReachable(adj, allowed, s, S, PathNode(s, p, k), p[..k]);
      assert p[k].start == PathNode(s, p, k) && IsAllowedEdge(adj, allowed, p[k]);
    }
  }

  /** A non-empty route from `s` to `t` is a chain: it starts at `s`, each
      edge starts where the previous one ends, it ends at `t`, and every edge
      has an allowed mode. */
  lemma PathIsChain(adj: map<Location, seq<Edge>>, allowed: set<TransportMode>,
                    s: Location, t: Location, p: seq<Edge>)
    requires IsPath(adj, allowed, s, t, p) && p != []
    ensures p[0].start == s && p[|p| - 1].end == t
    ensures forall i :: 0 <= i < |p| - 1 ==> p[i].end == p[i + 1].start
    ensures forall i :: 0 <= i < |p| ==> p[i].mode in allowed && p[i] in Neighbors(adj, p[i].start)
  {
    forall i | 0 <= i < |p| - 1 ensures p[i].end == p[i + 1].start {
      assert p[i + 1].start == PathNode(s, p, i + 1);
    }
    forall i | 0 <= i < |p| ensures p[i].mode in allowed && p[i] in Neighbors(adj, p[i].start) {
      assert IsAllowedEdge(adj, allowed, p[i]);
    }
  }
}
