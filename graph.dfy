// The network model: adjacency lists keyed by origin, the set of known
// locations, three station-name tables and the nearest-location search.

module Graph {
  import opened Routing

  /** The stored adjacency list of `loc`, or the empty list for an unknown origin. */
  function Neighbors(adj: map<Location, seq<Edge>>, loc: Location): seq<Edge> {
    if loc in adj then adj[loc] else []
  }

  /** Every edge is stored in the list of its own origin. */
  ghost predicate OriginsMatch(adj: map<Location, seq<Edge>>) {
    forall u, e {:trigger e in adj[u]} :: u in adj && e in adj[u] ==> e.start == u
  }

  /** The total number of edges stored in an adjacency map. */
  ghost function EdgeTotal(adj: map<Location, seq<Edge>>): nat
    decreases |adj|
  {
    if adj == map[] then 0
    else
      var u :| u in adj;
      |adj[u]| + EdgeTotal(adj - {u})
  }

  /** EdgeTotal does not depend on which origin is counted first. */
  lemma {:induction false} EdgeTotalRemove(adj: map<Location, seq<Edge>>, u: Location)
    requires u in adj
    ensures EdgeTotal(adj) == |adj[u]| + EdgeTotal(adj - {u})
    decreases |adj|
  {
    var v :| v in adj && EdgeTotal(adj) == |adj[v]| + EdgeTotal(adj - {v});
    if v != u {
      var rest := adj - {u} - {v};
      assert adj - {v} - {u} == rest;
      assert |adj - {v}| < |adj|;
      EdgeTotalRemove(adj - {v}, u);
      assert |adj - {u}| < |adj|;
      EdgeTotalRemove(adj - {u}, v);
    }
  }

  /** Appending one edge to one adjacency list adds exactly one edge in total. */
  lemma {:induction false} EdgeTotalAppend(adj: map<Location, seq<Edge>>, e: Edge)
    ensures EdgeTotal(adj[e.start := Neighbors(adj, e.start) + [e]]) == EdgeTotal(adj) + 1
  {
    var adj' := adj[e.start := Neighbors(adj, e.start) + [e]];
    EdgeTotalRemove(adj', e.start);
    if e.start in adj {
      EdgeTotalRemove(adj, e.start);
      assert adj' - {e.start} == adj - {e.start};
    } else {
      assert adj' - {e.start} == adj;
    }
  }

  /** Every origin is a known location, every edge is stored in the list of
      its own origin, and every edge ends at a known location. */
  ghost predicate WellFormed(adj: map<Location, seq<Edge>>, locs: set<Location>) {
    && adj.Keys <= locs
    && OriginsMatch(adj)
    && forall u, e {:trigger e in adj[u]} :: u in adj && e in adj[u] ==> e.end in locs
  }

  /** Appending an edge to the list of its origin, and adding both endpoints
      to the known locations, keeps the network well formed. */
  lemma AppendKeepsWellFormed(adj: map<Location, seq<Edge>>, locs: set<Location>, e: Edge)
    requires WellFormed(adj, locs)
    ensures WellFormed(adj[e.start := Neighbors(adj, e.start) + [e]], locs + {e.start, e.end})
  {
    var adj', locs' := adj[e.start := Neighbors(adj, e.start) + [e]], locs + {e.start, e.end};
    forall u: Location, x: Edge | u in adj' && x in adj'[u] ensures x.start == u && x.end in locs' {
      if u == e.start && x != e {
        assert x in Neighbors(adj, e.start);
      }
    }
  }

  /** The display name of `loc`: the metro table first, then the Bikolpo
      table, then the Uttara table, else the empty string. */
  function StationName(metro: map<Location, string>, bikolpo: map<Location, string>,
                       uttara: map<Location, string>, loc: Location): (name: string)
    ensures loc in metro ==> name == metro[loc]
    ensures loc !in metro && loc in bikolpo ==> name == bikolpo[loc]
    ensures loc !in metro && loc !in bikolpo && loc in uttara ==> name == uttara[loc]
    ensures loc !in metro && loc !in bikolpo && loc !in uttara ==> name == ""
  {
    if loc in metro then metro[loc]
    else if loc in bikolpo then bikolpo[loc]
    else if loc in uttara then uttara[loc]
    else ""
  }

  /** The largest finite double, (2 - 2^-52) * 2^1023, written out exactly:
      the initial value of the running minimum. */
  const DoubleMax: real := 179769313486231570814527423731704356798070567525844996598917476803157260780028538760589558632766878171540458953514382464234321326889464182768467546703537516986049910576551282076245490090389328944075868508455133942304583236903222948165808559332123348274797826204144723168738177180919299881250404026184124858368.0

  /** A LexLess-least element of a non-empty finite set of locations. */
  lemma {:induction false} LeastOf(s: set<Location>) returns (m: Location)
    requires s != {}
    ensures m in s && forall o :: o in s ==> !LexLess(o, m)
    decreases |s|
  {
    var x :| x in s;
    var rest := s - {x};
    if rest == {} {
      assert s == {x};
      m := x;
    } else {
      var n := LeastOf(rest);
      LexLessIsStrictTotalOrder(x, n, x);
      if LexLess(x, n) {
        m := x;
        forall o | o in rest ensures !LexLess(o, x) {
          LexLessIsStrictTotalOrder(o, x, n);
        }
      } else {
        m := n;
      }
    }
  }

  /** Every non-empty finite set of locations has a LexLess-least element. */
  lemma LeastExists(s: set<Location>)
    requires s != {}
    ensures exists m :: m in s && forall o :: o in s ==> !LexLess(o, m)
  {
    var m := LeastOf(s);
  }

  lemma InsertGrowsByAtMostOne(s: set<Location>, x: Location)
    ensures |s| <= |s + {x}| <= |s| + 1
  {
    if x in s {
      assert s + {x} == s;
    }
  }

  /** Partial progress of an ascending scan of `s`: `scan` holds the elements
      visited so far in ascending order, all below the `remaining` ones. */
  ghost predicate ScanProgress(s: set<Location>, remaining: set<Location>, scan: seq<Location>) {
    && remaining <= s
    && (forall l :: l in s <==> l in remaining || l in scan)
    && (forall l :: l in scan ==> l !in remaining)
    && (forall i, j :: 0 <= i < j < |scan| ==> LexLess(scan[i], scan[j]))
    && (forall i, l :: 0 <= i < |scan| && l in remaining ==> LexLess(scan[i], l))
  }

  /** Visiting the least remaining element keeps the scan ascending. */
  lemma ScanStep(s: set<Location>, remaining: set<Location>, scan: seq<Location>, loc: Location)
    requires ScanProgress(s, remaining, scan)
    requires loc in remaining && forall o :: o in remaining ==> !LexLess(o, loc)
    ensures ScanProgress(s, remaining - {loc}, scan + [loc])
  {
    forall o | o in remaining && o != loc ensures LexLess(loc, o) {
      LexLessIsStrictTotalOrder(loc, o, o);
    }
    var scan' := scan + [loc];
    forall i, j | 0 <= i < j < |scan'| ensures LexLess(scan'[i], scan'[j]) {
      if j < |scan| {
        assert scan'[i] == scan[i] && scan'[j] == scan[j];
      } else {
        assert scan'[i] == scan[i] && scan'[j] == loc;
      }
    }
  }

  /** `scan` lists `s` without repetition in ascending LexLess order. */
  ghost predicate AscendingEnumeration(scan: seq<Location>, s: set<Location>) {
    && (forall l :: l in s <==> l in scan)
    && (forall i, j :: 0 <= i < j < |scan| ==> LexLess(scan[i], scan[j]))
  }

  /** Some member of `s` is closer to `target` than DoubleMax. */
  ghost predicate InRange(s: set<Location>, target: Location, haversine: (Location, Location) -> real) {
    exists l :: l in s && haversine(target, l) < DoubleMax
  }

  /** `nearest` is what the linear scan picks: the target itself when no
      member is closer than DoubleMax (in particular when there are no
      locations); otherwise a member at least as close as every member, and
      the first such in scan order. */
  ghost predicate IsNearest(s: set<Location>, scan: seq<Location>, target: Location,
                            haversine: (Location, Location) -> real, nearest: Location) {
    && (!InRange(s, target, haversine) ==> nearest == target)
    && (InRange(s, target, haversine) ==>
          nearest in s && forall l :: l in s ==> haversine(target, nearest) <= haversine(target, l))
    && (InRange(s, target, haversine) ==>
          exists k :: 0 <= k < |scan| && scan[k] == nearest &&
            forall j :: 0 <= j < k ==> haversine(target, nearest) < haversine(target, scan[j]))
  }

  /** `nearest` is what the scan of `s` in ascending key order picks for
      `target`. */
  ghost predicate Snapped(s: set<Location>, target: Location, haversine: (Location, Location) -> real,
                          nearest: Location) {
    exists scan :: AscendingEnumeration(scan, s) && IsNearest(s, scan, target, haversine, nearest)
  }

  /** The running minimum of the scan: while no element closer than
      DoubleMax has been seen, `minDist` is DoubleMax and `nearest` the
      target; afterwards `minDist` is the distance to `nearest`, which is
      `scan[k]`. No earlier element is as close and no element is closer. */
  ghost predicate BestSoFar(scan: seq<Location>, target: Location, haversine: (Location, Location) -> real,
                            nearest: Location, minDist: real, k: nat) {
    && minDist <= DoubleMax && k <= |scan|
    && (minDist == DoubleMax ==> nearest == target)
    && (minDist < DoubleMax ==> k < |scan| && nearest == scan[k] && minDist == haversine(target, nearest))
    && (forall j :: 0 <= j < |scan| ==> minDist <= haversine(target, scan[j]))
    && (forall j :: 0 <= j < k && j < |scan| ==> minDist < haversine(target, scan[j]))
  }

  /** A strictly closer element becomes the new minimum. */
  lemma BestImproves(scan: seq<Location>, target: Location, haversine: (Location, Location) -> real,
                     nearest: Location, minDist: real, k: nat, loc: Location)
    requires BestSoFar(scan, target, haversine, nearest, minDist, k)
    requires haversine(target, loc) < minDist
    ensures BestSoFar(scan + [loc], target, haversine, loc, haversine(target, loc), |scan|)
  {
    var scan' := scan + [loc];
    forall j | 0 <= j < |scan'| ensures haversine(target, loc) <= haversine(target, scan'[j]) {
      if j < |scan| {
        assert scan'[j] == scan[j];
      }
    }
    forall j | 0 <= j < |scan| ensures haversine(target, loc) < haversine(target, scan'[j]) {
      assert scan'[j] == scan[j];
    }
  }

  /** An element that is not strictly closer leaves the minimum in place. */
  lemma BestStays(scan: seq<Location>, target: Location, haversine: (Location, Location) -> real,
                  nearest: Location, minDist: real, k: nat, loc: Location)
    requires BestSoFar(scan, target, haversine, nearest, minDist, k)
    requires minDist <= haversine(target, loc)
    ensures BestSoFar(scan + [loc], target, haversine, nearest, minDist, k)
  {
    var scan' := scan + [loc];
    forall j | 0 <= j < |scan| ensures scan'[j] == scan[j] {
    }
  }

  /** A completed scan picks the nearest element, the first such in scan
      order, or keeps the target when no element is closer than DoubleMax. */
  lemma ScanFindsNearest(s: set<Location>, scan: seq<Location>, target: Location,
                         haversine: (Location, Location) -> real, nearest: Location, minDist: real, k: nat)
    requires ScanProgress(s, {}, scan)
    requires BestSoFar(scan, target, haversine, nearest, minDist, k)
    ensures AscendingEnumeration(scan, s)
    ensures IsNearest(s, scan, target, haversine, nearest)
  {
    if InRange(s, target, haversine) {
      var l :| l in s && haversine(target, l) < DoubleMax;
      var i :| 0 <= i < |scan| && scan[i] == l;
      forall m | m in s ensures haversine(target, nearest) <= haversine(target, m) {
        var j :| 0 <= j < |scan| && scan[j] == m;
      }
    } else {
      forall j | 0 <= j < |scan| ensures haversine(target, scan[j]) >= DoubleMax {
        assert scan[j] in s;
      }
    }
  }

  class DhakaGraph {
    var adjacency: map<Location, seq<Edge>>
    var locations: set<Location>
    var metroStations: map<Location, string>
    var bikolpoStops: map<Location, string>
    var uttaraStops: map<Location, string>

    /** Every stored edge lies in the list of its own origin, and both its
        endpoints are known locations. */
    ghost predicate Valid()
      reads this
    {
      WellFormed(adjacency, locations)
    }

    constructor ()
      ensures Valid()
      ensures adjacency == map[] && locations == {}
      ensures metroStations == map[] && bikolpoStops == map[] && uttaraStops == map[]
    {
      adjacency := map[];
      locations := {};
      metroStations := map[];
      bikolpoStops := map[];
      uttaraStops := map[];
    }

    method AddEdge(edge: Edge)
      requires Valid()
      modifies this
      ensures Valid()
      ensures locations == old(locations) + {edge.start, edge.end}
      ensures adjacency == old(adjacency)[edge.start := old(GetNeighbors(edge.start)) + [edge]]
      ensures GetNeighbors(edge.start) == old(GetNeighbors(edge.start)) + [edge]
      ensures forall l :: l != edge.start ==> GetNeighbors(l) == old(GetNeighbors(l))
      ensures EdgeTotal(adjacency) == old(EdgeTotal(adjacency)) + 1
      ensures old(GetLocationCount()) <= GetLocationCount() <= old(GetLocationCount()) + 2
      ensures metroStations == old(metroStations) && bikolpoStops == old(bikolpoStops)
      ensures uttaraStops == old(uttaraStops)
    {
      EdgeTotalAppend(adjacency, edge);
      AppendKeepsWellFormed(adjacency, locations, edge);
      InsertGrowsByAtMostOne(locations, edge.start);
      InsertGrowsByAtMostOne(locations + {edge.start}, edge.end);
      assert locations + {edge.start} + {edge.end} == locations + {edge.start, edge.end};
      locations := locations + {edge.start, edge.end};
      adjacency := adjacency[edge.start := Neighbors(adjacency, edge.start) + [edge]];
    }

    /** The edges stored for origin `loc`; empty when `loc` is not an origin. */
    function GetNeighbors(loc: Location): (r: seq<Edge>)
      reads this
      ensures loc in adjacency ==> r == adjacency[loc]
      ensures loc !in adjacency ==> r == []
    {
      Neighbors(adjacency, loc)
    }

    method AddMetroStation(loc: Location, name: string)
      modifies this
      ensures metroStations == old(metroStations)[loc := name]
      ensures GetStationName(loc) == name
      ensures adjacency == old(adjacency) && locations == old(locations)
      ensures bikolpoStops == old(bikolpoStops) && uttaraStops == old(uttaraStops)
    {
      metroStations := metroStations[loc := name];
    }

    method AddBikolpoStop(loc: Location, name: string)
      modifies this
      ensures bikolpoStops == old(bikolpoStops)[loc := name]
      ensures GetStationName(loc) == if loc in metroStations then metroStations[loc] else name
      ensures adjacency == old(adjacency) && locations == old(locations)
      ensures metroStations == old(metroStations) && uttaraStops == old(uttaraStops)
    {
      bikolpoStops := bikolpoStops[loc := name];
    }

    method AddUttaraStop(loc: Location, name: string)
      modifies this
      ensures uttaraStops == old(uttaraStops)[loc := name]
      ensures GetStationName(loc) ==
        if loc in metroStations then metroStations[loc]
        else if loc in bikolpoStops then bikolpoStops[loc]
        else name
      ensures adjacency == old(adjacency) && locations == old(locations)
      ensures metroStations == old(metroStations) && bikolpoStops == old(bikolpoStops)
    {
      uttaraStops := uttaraStops[loc := name];
    }

    /** The network's own view of `StationName`: the name of `loc` from the
        first of its three tables (metro, Bikolpo, Uttara) that has it, else
        "". The member states the lookup on the network's fields; the
        priority order itself is defined once, in `StationName`. */
    function GetStationName(loc: Location): (name: string)
      reads this
      ensures name == StationName(metroStations, bikolpoStops, uttaraStops, loc)
    {
      StationName(metroStations, bikolpoStops, uttaraStops, loc)
    }

    /** The known location nearest to `target` under `haversine`, scanning the
        locations in ascending key order; `scan` is that order. */
    method FindNearestLocation(target: Location, haversine: (Location, Location) -> real)
      returns (nearest: Location, ghost scan: seq<Location>)
      ensures (forall l :: l in locations ==> haversine(target, l) >= DoubleMax) ==> nearest == target
      ensures (exists l :: l in locations && haversine(target, l) < DoubleMax) ==>
                nearest in locations && haversine(target, nearest) < DoubleMax
                && forall l :: l in locations ==> haversine(target, nearest) <= haversine(target, l)
      ensures AscendingEnumeration(scan, locations)
      ensures IsNearest(locations, scan, target, haversine, nearest)
    {
      if locations == {} {
        return target, [];
      }
      var minDist := DoubleMax;
      nearest := target;
      var remaining := locations;
      scan := [];
      ghost var k: nat := 0;
      while remaining != {}
        invariant ScanProgress(locations, remaining, scan)
        invariant BestSoFar(scan, target, haversine, nearest, minDist, k)
        decreases |remaining|
      {
        LeastExists(remaining);
        var loc :| loc in remaining && forall o :: o in remaining ==> !LexLess(o, loc);
        ScanStep(locations, remaining, scan, loc);
        var dist := haversine(target, loc);
        if dist < minDist {
          BestImproves(scan, target, haversine, nearest, minDist, k, loc);
          minDist := dist;
          nearest := loc;
          k := |scan|;
        } else {
          BestStays(scan, target, haversine, nearest, minDist, k, loc);
        }
        remaining := remaining - {loc};
        scan := scan + [loc];
      }
      ScanFindsNearest(locations, scan, target, haversine, nearest, minDist, k);
    }

    /** The number of known locations. */
    function GetLocationCount(): (n: nat)
      reads this
      ensures n == |locations|
    {
      |locations|
    }

    /** The number of stored edges, summed over the adjacency lists. */
    method GetEdgeCount() returns (count: nat)
      ensures count == EdgeTotal(adjacency)
    {
      count := 0;
      var rest := adjacency;
      while rest != map[]
        invariant count + EdgeTotal(rest) == EdgeTotal(adjacency)
        decreases |rest|
      {
        var u :| u in rest;
        EdgeTotalRemove(rest, u);
        count := count + |rest[u]|;
        rest := rest - {u};
      }
    }
  }
}
