// Itineraries: the result record of the solvers, the grouping of a route's
// edges into legs of one mode, the walking legs at either end, and the sums
// that make up the totals.

module Itinerary {
  import opened Routing
  import opened Graph
  import opened Paths
  import opened Pricing

  /** A walking gap at either end shorter than this (km) gets no walking leg. */
  const WalkThreshold: real := 0.001

  /** The solver's result: six parallel columns, one entry per segment, and
      the total of the problem's measure. */
  datatype RouteResult = RouteResult(segments: seq<(Location, Location)>, modes: seq<TransportMode>,
                                     distances: seq<real>, costs: seq<real>,
                                     startNames: seq<string>, endNames: seq<string>,
                                     totalValue: real)

  /** The empty result, total 0. */
  function EmptyResult(): (r: RouteResult)
    ensures Shaped(r) && |r.segments| == 0 && r.totalValue == 0.0
  {
    RouteResult([], [], [], [], [], [], 0.0)
  }

  /** All six columns have the same length. */
  predicate Shaped(r: RouteResult) {
    && |r.modes| == |r.segments| && |r.distances| == |r.segments| && |r.costs| == |r.segments|
    && |r.startNames| == |r.segments| && |r.endNames| == |r.segments|
  }

  /** One row of a result. */
  datatype Segment = Segment(start: Location, end: Location, mode: TransportMode, distance: real,
                             cost: real, startName: string, endName: string)

  /** A result with one more row. */
  function AddSegment(r: RouteResult, s: Segment): RouteResult {
    RouteResult(r.segments + [(s.start, s.end)], r.modes + [s.mode], r.distances + [s.distance],
                r.costs + [s.cost], r.startNames + [s.startName], r.endNames + [s.endName], r.totalValue)
  }

  /** The result whose rows are `segs`, with total 0. */
  function FromSegments(segs: seq<Segment>): (r: RouteResult)
    ensures Shaped(r) && |r.segments| == |segs| && r.totalValue == 0.0
    ensures forall i :: 0 <= i < |segs| ==>
      && r.segments[i] == (segs[i].start, segs[i].end) && r.modes[i] == segs[i].mode
      && r.distances[i] == segs[i].distance && r.costs[i] == segs[i].cost
      && r.startNames[i] == segs[i].startName && r.endNames[i] == segs[i].endName
  {
    RouteResult(seq(|segs|, i requires 0 <= i < |segs| => (segs[i].start, segs[i].end)),
                seq(|segs|, i requires 0 <= i < |segs| => segs[i].mode),
                seq(|segs|, i requires 0 <= i < |segs| => segs[i].distance),
                seq(|segs|, i requires 0 <= i < |segs| => segs[i].cost),
                seq(|segs|, i requires 0 <= i < |segs| => segs[i].startName),
                seq(|segs|, i requires 0 <= i < |segs| => segs[i].endName),
                0.0)
  }

  /** Adding a row to the result of `segs` gives the result of `segs` with
      that row appended. */
  lemma FromSegmentsSnoc(segs: seq<Segment>, s: Segment)
    ensures AddSegment(FromSegments(segs), s) == FromSegments(segs + [s])
  {
    var r, r' := AddSegment(FromSegments(segs), s), FromSegments(segs + [s]);
    assert (segs + [s])[|segs|] == s;
    assert forall i :: 0 <= i < |segs| ==> (segs + [s])[i] == segs[i];
    assert r.segments == r'.segments;
    assert r.modes == r'.modes;
    assert r.distances == r'.distances;
    assert r.costs == r'.costs;
    assert r.startNames == r'.startNames;
    assert r.endNames == r'.endNames;
  }

  /** A run of consecutive edges of one mode, travelled as one leg. */
  datatype Leg = Leg(start: Location, end: Location, mode: TransportMode, distance: real)

  function LegOf(e: Edge): Leg {
    Leg(e.start, e.end, e.mode, e.distance)
  }

  /** Edge `e` continues `leg`: same mode, and it starts (within the
      tolerance of location equality) where the leg ends. */
  predicate Continues(leg: Leg, e: Edge) {
    e.mode == leg.mode && LocEqual(e.start, leg.end)
  }

  /** Leg `b` could have been merged into leg `a`. */
  predicate Joinable(a: Leg, b: Leg) {
    b.mode == a.mode && LocEqual(b.start, a.end)
  }

  /** The leg grown by an edge that continues it. */
  function Extend(leg: Leg, e: Edge): Leg {
    Leg(leg.start, e.end, leg.mode, leg.distance + e.distance)
  }

  /** The legs of the edges `rest` when `current` is the leg under
      construction: each edge that continues the current leg extends it,
      any other edge closes it and starts the next. */
  function Group(current: Leg, rest: seq<Edge>): seq<Leg>
    decreases |rest|
  {
    if rest == [] then [current]
    else if Continues(current, rest[0]) then Group(Extend(current, rest[0]), rest[1..])
    else [current] + Group(LegOf(rest[0]), rest[1..])
  }

  /** The legs of a route: none for no edges, otherwise the grouping that
      starts with the first edge as the current leg. */
  function Coalesce(edges: seq<Edge>): seq<Leg> {
    if edges == [] then [] else Group(LegOf(edges[0]), edges[1..])
  }

  /** The sum of a sequence of reals, added from the front. */
  function Sum(xs: seq<real>): real
    decreases |xs|
  {
    if xs == [] then 0.0 else Sum(xs[..|xs| - 1]) + xs[|xs| - 1]
  }

  /** The total of a per-leg measure over a sequence of legs. */
  function LegTotal(legs: seq<Leg>, measure: Leg -> real): real {
    if legs == [] then 0.0 else measure(legs[0]) + LegTotal(legs[1..], measure)
  }

  /** The length of a leg. */
  function LegLength(leg: Leg): real {
    leg.distance
  }

  /** The fare of a leg under a tariff: its length times its mode's rate. */
  function TariffFare(t: Tariff): Leg -> real {
    (leg: Leg) => leg.distance * Rate(t, leg.mode)
  }

  /** `measure` on legs agrees with `cost` on edges: a one-edge leg measures
      what its edge costs, and extending a leg by an edge of its mode adds
      that edge's cost. */
  ghost predicate Additive(measure: Leg -> real, cost: Edge -> real) {
    && (forall e :: measure(LegOf(e)) == cost(e))
    && (forall leg: Leg, e: Edge {:trigger measure(Extend(leg, e))} :: e.mode == leg.mode ==> measure(Extend(leg, e)) == measure(leg) + cost(e))
  }

  /** Length is additive with respect to the distance cost of problem 1. */
  lemma LengthAdditive()
    ensures Additive(LegLength, Problem1Cost)
  {
  }

  /** A tariff's fare is additive with respect to any cost that charges each
      edge its distance times its mode's rate. */
  lemma FareAdditive(t: Tariff, cost: Edge -> real)
    requires forall e :: cost(e) == e.distance * Rate(t, e.mode)
    ensures Additive(TariffFare(t), cost)
  {
    forall leg: Leg, e: Edge | e.mode == leg.mode ensures TariffFare(t)(Extend(leg, e)) == TariffFare(t)(leg) + cost(e) {
      var r := Rate(t, leg.mode);
      assert cost(e) == e.distance * r;
      Distribute(leg.distance, e.distance, r);
    }
    forall e ensures TariffFare(t)(LegOf(e)) == cost(e) {
      assert cost(e) == e.distance * Rate(t, e.mode);
    }
  }

  lemma Distribute(a: real, b: real, r: real)
    ensures (a + b) * r == a * r + b * r
  {
  }

  lemma {:induction false} SumAppend(xs: seq<real>, ys: seq<real>)
    ensures Sum(xs + ys) == Sum(xs) + Sum(ys)
    decreases |ys|
  {
    if ys == [] {
      assert xs + ys == xs;
    } else {
      var ys', y := ys[..|ys| - 1], ys[|ys| - 1];
      assert (xs + ys)[..|xs + ys| - 1] == xs + ys';
      SumAppend(xs, ys');
    }
  }

  lemma SumCons(x: real, xs: seq<real>)
    ensures Sum([x] + xs) == x + Sum(xs)
  {
    SumAppend([x], xs);
    assert [x][..0] == [];
  }

  /** The grouping has one leg more than it closes, and at most one leg per
      edge plus the current one; its first leg is the current leg's start
      and mode; its last leg ends where the last edge ends. */
  lemma {:induction false} GroupShape(current: Leg, rest: seq<Edge>)
    ensures 1 <= |Group(current, rest)| <= |rest| + 1
    ensures Group(current, rest)[0].start == current.start && Group(current, rest)[0].mode == current.mode
    ensures Group(current, rest)[|Group(current, rest)| - 1].end == (if rest == [] then current.end else rest[|rest| - 1].end)
    decreases |rest|
  {
    if rest != [] {
      var next := rest[1..];
      if Continues(current, rest[0]) {
        GroupShape(Extend(current, rest[0]), next);
      } else {
        GroupShape(LegOf(rest[0]), next);
      }
      if next != [] {
        assert next[|next| - 1] == rest[|rest| - 1];
      }
    }
  }

  /** Coalescing yields no legs for no edges and otherwise between one leg
      and one leg per edge; the legs start where the first edge starts and
      end where the last edge ends. */
  lemma CoalesceShape(edges: seq<Edge>)
    ensures |Coalesce(edges)| <= |edges|
    ensures Coalesce(edges) == [] <==> edges == []
    ensures edges != [] ==> Coalesce(edges)[0].start == edges[0].start
    ensures edges != [] ==> Coalesce(edges)[|Coalesce(edges)| - 1].end == edges[|edges| - 1].end
  {
    if edges != [] {
      GroupShape(LegOf(edges[0]), edges[1..]);
      if |edges| > 1 {
        assert edges[1..][|edges| - 2] == edges[|edges| - 1];
      }
    }
  }

  lemma {:induction false} GroupTotal(current: Leg, rest: seq<Edge>, measure: Leg -> real, cost: Edge -> real)
    requires Additive(measure, cost)
    ensures LegTotal(Group(current, rest), measure) == measure(current) + PathCost(rest, cost)
    decreases |rest|
  {
    if rest == [] {
      assert [current][1..] == [];
    } else {
      var e, next := rest[0], rest[1..];
      if Continues(current, e) {
        GroupTotal(Extend(current, e), next, measure, cost);
      } else {
        var g := Group(LegOf(e), next);
        GroupTotal(LegOf(e), next, measure, cost);
        assert ([current] + g)[1..] == g;
      }
    }
  }

  /** Coalescing keeps any additive measure: the legs of a route measure in
      total what its edges cost, so their lengths add up to the route's
      length and their fares to its fare. */
  lemma CoalesceTotal(edges: seq<Edge>, measure: Leg -> real, cost: Edge -> real)
    requires Additive(measure, cost)
    ensures LegTotal(Coalesce(edges), measure) == PathCost(edges, cost)
  {
    if edges != [] {
      GroupTotal(LegOf(edges[0]), edges[1..], measure, cost);
    }
  }

  lemma {:induction false} GroupMaximal(current: Leg, rest: seq<Edge>)
    ensures forall i :: 0 <= i < |Group(current, rest)| - 1 ==> !Joinable(Group(current, rest)[i], Group(current, rest)[i + 1])
    decreases |rest|
  {
    if rest != [] {
      var e := rest[0];
      if Continues(current, e) {
        GroupMaximal(Extend(current, e), rest[1..]);
      } else {
        var g := Group(LegOf(e), rest[1..]);
        GroupMaximal(LegOf(e), rest[1..]);
        GroupShape(LegOf(e), rest[1..]);
        forall i | 0 <= i < |[current] + g| - 1 ensures !Joinable(([current] + g)[i], ([current] + g)[i + 1]) {
          if i > 0 {
            assert ([current] + g)[i] == g[i - 1] && ([current] + g)[i + 1] == g[i];
          }
        }
      }
    }
  }

  /** No leg could have been merged into the one before it: a new leg starts
      only where the mode changes or the route does not continue from where
      the previous leg ended. */
  lemma CoalesceMaximal(edges: seq<Edge>)
    ensures forall i :: 0 <= i < |Coalesce(edges)| - 1 ==> !Joinable(Coalesce(edges)[i], Coalesce(edges)[i + 1])
  {
    if edges != [] {
      GroupMaximal(LegOf(edges[0]), edges[1..]);
    }
  }

  lemma {:induction false} GroupModes(current: Leg, rest: seq<Edge>, allowed: set<TransportMode>)
    requires current.mode in allowed
    requires forall i :: 0 <= i < |rest| ==> rest[i].mode in allowed
    ensures forall j :: 0 <= j < |Group(current, rest)| ==> Group(current, rest)[j].mode in allowed
    decreases |rest|
  {
    if rest != [] {
      var e := rest[0];
      assert forall i :: 0 <= i < |rest[1..]| ==> rest[1..][i] == rest[i + 1];
      if Continues(current, e) {
        GroupModes(Extend(current, e), rest[1..], allowed);
      } else {
        GroupModes(LegOf(e), rest[1..], allowed);
        var g := Group(LegOf(e), rest[1..]);
        assert forall j :: 0 < j < |[current] + g| ==> ([current] + g)[j] == g[j - 1];
      }
    }
  }

  /** Every leg of a route over allowed modes has an allowed mode. */
  lemma CoalesceModes(edges: seq<Edge>, allowed: set<TransportMode>)
    requires forall i :: 0 <= i < |edges| ==> edges[i].mode in allowed
    ensures forall j :: 0 <= j < |Coalesce(edges)| ==> Coalesce(edges)[j].mode in allowed
  {
    if edges != [] {
      assert forall i :: 0 <= i < |edges[1..]| ==> edges[1..][i] == edges[i + 1];
      GroupModes(LegOf(edges[0]), edges[1..], allowed);
    }
  }

  /** Successive edges of a route join end to start. */
  predicate Chained(edges: seq<Edge>) {
    forall i :: 0 <= i < |edges| - 1 ==> edges[i].end == edges[i + 1].start
  }

  lemma {:induction false} GroupChained(current: Leg, rest: seq<Edge>)
    requires rest != [] ==> current.end == rest[0].start
    requires Chained(rest)
    ensures forall i :: 0 <= i < |Group(current, rest)| - 1 ==>
      Group(current, rest)[i].end == Group(current, rest)[i + 1].start && Group(current, rest)[i].mode != Group(current, rest)[i + 1].mode
    decreases |rest|
  {
    if rest != [] {
      var e, next := rest[0], rest[1..];
      assert Chained(next) by {
        forall i | 0 <= i < |next| - 1 ensures next[i].end == next[i + 1].start {
          assert next[i] == rest[i + 1] && next[i + 1] == rest[i + 2];
        }
      }
      if next != [] {
        assert next[0] == rest[1];
      }
      if Continues(current, e) {
        GroupChained(Extend(current, e), next);
      } else {
        LocEqualReflexiveSymmetric(e.start, e.start);
        var g := Group(LegOf(e), next);
        GroupChained(LegOf(e), next);
        GroupShape(LegOf(e), next);
        forall i | 0 <= i < |[current] + g| - 1
          ensures ([current] + g)[i].end == ([current] + g)[i + 1].start && ([current] + g)[i].mode != ([current] + g)[i + 1].mode
        {
          if i > 0 {
            assert ([current] + g)[i] == g[i - 1] && ([current] + g)[i + 1] == g[i];
          }
        }
      }
    }
  }

  /** The legs of a chained route are chained too, and successive legs
      differ in mode: a leg ends exactly where the mode changes. */
  lemma CoalesceChained(edges: seq<Edge>)
    requires Chained(edges)
    ensures forall i :: 0 <= i < |Coalesce(edges)| - 1 ==>
      Coalesce(edges)[i].end == Coalesce(edges)[i + 1].start && Coalesce(edges)[i].mode != Coalesce(edges)[i + 1].mode
  {
    if edges != [] {
      var next := edges[1..];
      assert Chained(next) by {
        forall i | 0 <= i < |next| - 1 ensures next[i].end == next[i + 1].start {
          assert next[i] == edges[i + 1] && next[i + 1] == edges[i + 2];
        }
      }
      if next != [] {
        assert next[0] == edges[1];
      }
      GroupChained(LegOf(edges[0]), next);
    }
  }

  /** The row of a transit leg: no fare yet, and the station names of its
      endpoints. */
  function TransitSegment(leg: Leg, metro: map<Location, string>, bikolpo: map<Location, string>,
                          uttara: map<Location, string>): Segment {
    Segment(leg.start, leg.end, leg.mode, leg.distance, 0.0,
            StationName(metro, bikolpo, uttara, leg.start), StationName(metro, bikolpo, uttara, leg.end))
  }

  /** The rows of a sequence of transit legs. */
  function Named(legs: seq<Leg>, metro: map<Location, string>, bikolpo: map<Location, string>,
                 uttara: map<Location, string>): (segs: seq<Segment>)
    ensures |segs| == |legs|
    ensures forall i :: 0 <= i < |legs| ==> segs[i] == TransitSegment(legs[i], metro, bikolpo, uttara)
  {
    seq(|legs|, i requires 0 <= i < |legs| => TransitSegment(legs[i], metro, bikolpo, uttara))
  }

  lemma NamedSnoc(legs: seq<Leg>, leg: Leg, metro: map<Location, string>, bikolpo: map<Location, string>,
                  uttara: map<Location, string>)
    ensures Named(legs + [leg], metro, bikolpo, uttara)
         == Named(legs, metro, bikolpo, uttara) + [TransitSegment(leg, metro, bikolpo, uttara)]
  {
    assert forall i :: 0 <= i < |legs| ==> (legs + [leg])[i] == legs[i];
  }

  /** Where the route is joined: the start of its first edge, or the
      requested source for an empty route. */
  function EntryPoint(edges: seq<Edge>, source: Location): Location {
    if edges == [] then source else edges[0].start
  }

  /** Where the route is left: the end of its last edge, or the requested
      destination for an empty route. */
  function ExitPoint(edges: seq<Edge>, dest: Location): Location {
    if edges == [] then dest else edges[|edges| - 1].end
  }

  /** The walking row from `a` to `b`: free and unnamed. */
  function WalkSegment(a: Location, b: Location, d: real): Segment {
    Segment(a, b, Walk, d, 0.0, "", "")
  }

  /** The walking leg from `a` to `b` when their distance exceeds the
      threshold, else nothing. */
  function WalkLegs(a: Location, b: Location, haversine: (Location, Location) -> real): seq<Segment> {
    if haversine(a, b) > WalkThreshold then [WalkSegment(a, b, haversine(a, b))] else []
  }

  /** The walking distance between `a` and `b` that an itinerary counts. */
  function WalkDistance(a: Location, b: Location, haversine: (Location, Location) -> real): real {
    if haversine(a, b) > WalkThreshold then haversine(a, b) else 0.0
  }

  /** The rows of the itinerary for `edges` between the requested `source`
      and `dest`: a walking leg to the route, the route's legs, and a walking
      leg from it. */
  function Segments(edges: seq<Edge>, source: Location, dest: Location,
                    haversine: (Location, Location) -> real, metro: map<Location, string>,
                    bikolpo: map<Location, string>, uttara: map<Location, string>): seq<Segment> {
    WalkLegs(source, EntryPoint(edges, source), haversine)
      + Named(Coalesce(edges), metro, bikolpo, uttara)
      + WalkLegs(ExitPoint(edges, dest), dest, haversine)
  }

  /** The layout of an itinerary: a walking row first exactly when the gap
      between the requested source and the route exceeds the threshold, a
      walking row last exactly when the gap between the route and the
      requested destination does, and in between one row per leg, named
      after the stations at its ends. */
  lemma ItineraryLayout(edges: seq<Edge>, source: Location, dest: Location,
                        haversine: (Location, Location) -> real, metro: map<Location, string>,
                        bikolpo: map<Location, string>, uttara: map<Location, string>, segs: seq<Segment>)
    requires segs == Segments(edges, source, dest, haversine, metro, bikolpo, uttara)
    ensures |segs| == (if haversine(source, EntryPoint(edges, source)) > WalkThreshold then 1 else 0) + |Coalesce(edges)|
                      + (if haversine(ExitPoint(edges, dest), dest) > WalkThreshold then 1 else 0)
    ensures haversine(source, EntryPoint(edges, source)) > WalkThreshold
        ==> segs[0] == WalkSegment(source, EntryPoint(edges, source), haversine(source, EntryPoint(edges, source)))
    ensures haversine(ExitPoint(edges, dest), dest) > WalkThreshold
        ==> segs[|segs| - 1] == WalkSegment(ExitPoint(edges, dest), dest, haversine(ExitPoint(edges, dest), dest))
    ensures forall j :: 0 <= j < |Coalesce(edges)| ==>
      segs[(if haversine(source, EntryPoint(edges, source)) > WalkThreshold then 1 else 0) + j]
        == TransitSegment(Coalesce(edges)[j], metro, bikolpo, uttara)
  {
    var head, legs := WalkLegs(source, EntryPoint(edges, source), haversine), Coalesce(edges);
    var mid, tail := Named(legs, metro, bikolpo, uttara), WalkLegs(ExitPoint(edges, dest), dest, haversine);
    assert segs == head + mid + tail;
    forall j | 0 <= j < |legs| ensures segs[|head| + j] == TransitSegment(legs[j], metro, bikolpo, uttara) {
      assert segs[|head| + j] == mid[j];
    }
  }

  /** No row of an itinerary is priced when it is built. */
  lemma ItineraryUnpriced(edges: seq<Edge>, source: Location, dest: Location,
                          haversine: (Location, Location) -> real, metro: map<Location, string>,
                          bikolpo: map<Location, string>, uttara: map<Location, string>, segs: seq<Segment>)
    requires segs == Segments(edges, source, dest, haversine, metro, bikolpo, uttara)
    ensures forall i :: 0 <= i < |segs| ==> segs[i].cost == 0.0
  {
    var head, legs := WalkLegs(source, EntryPoint(edges, source), haversine), Coalesce(edges);
    var mid, tail := Named(legs, metro, bikolpo, uttara), WalkLegs(ExitPoint(edges, dest), dest, haversine);
    assert segs == head + mid + tail;
    forall i | 0 <= i < |segs| ensures segs[i].cost == 0.0 {
      if i < |head| {
        assert segs[i] == head[i];
      } else if i < |head| + |mid| {
        assert segs[i] == mid[i - |head|];
      } else {
        assert segs[i] == tail[i - |head| - |mid|];
      }
    }
  }

  /** A column of per-row values of a sequence of rows. */
  function Column(segs: seq<Segment>, f: Segment -> real): (cs: seq<real>)
    ensures |cs| == |segs| && forall i :: 0 <= i < |segs| ==> cs[i] == f(segs[i])
  {
    seq(|segs|, i requires 0 <= i < |segs| => f(segs[i]))
  }

  /** The length of a row. */
  function SegLength(s: Segment): real {
    s.distance
  }

  /** The fare of a row under a tariff: its length times its mode's rate. */
  function SegFare(t: Tariff): Segment -> real {
    (s: Segment) => s.distance * Rate(t, s.mode)
  }

  lemma ColumnAppend(a: seq<Segment>, b: seq<Segment>, f: Segment -> real)
    ensures Sum(Column(a + b, f)) == Sum(Column(a, f)) + Sum(Column(b, f))
  {
    assert forall i :: 0 <= i < |a| ==> (a + b)[i] == a[i];
    assert forall i :: |a| <= i < |a + b| ==> (a + b)[i] == b[i - |a|];
    assert Column(a + b, f) == Column(a, f) + Column(b, f);
    SumAppend(Column(a, f), Column(b, f));
  }

  lemma NamedCons(legs: seq<Leg>, metro: map<Location, string>, bikolpo: map<Location, string>,
                  uttara: map<Location, string>)
    requires legs != []
    ensures Named(legs, metro, bikolpo, uttara)
         == [TransitSegment(legs[0], metro, bikolpo, uttara)] + Named(legs[1..], metro, bikolpo, uttara)
  {
    assert forall i :: 0 < i < |legs| ==> legs[1..][i - 1] == legs[i];
  }

  lemma ColumnSingle(s: Segment, f: Segment -> real)
    ensures Sum(Column([s], f)) == f(s)
  {
    assert Column([s], f) == [f(s)];
    SumCons(f(s), []);
  }

  /** A row measure that gives each transit row its leg's measure totals the
      rows of a sequence of legs as the legs themselves. */
  lemma {:induction false} NamedTotal(legs: seq<Leg>, metro: map<Location, string>, bikolpo: map<Location, string>,
                                      uttara: map<Location, string>, f: Segment -> real, g: Leg -> real)
    requires forall leg :: f(TransitSegment(leg, metro, bikolpo, uttara)) == g(leg)
    ensures Sum(Column(Named(legs, metro, bikolpo, uttara), f)) == LegTotal(legs, g)
    decreases |legs|
  {
    if legs != [] {
      var first := [TransitSegment(legs[0], metro, bikolpo, uttara)];
      var rest := Named(legs[1..], metro, bikolpo, uttara);
      NamedCons(legs, metro, bikolpo, uttara);
      NamedTotal(legs[1..], metro, bikolpo, uttara, f, g);
      ColumnAppend(first, rest, f);
      ColumnSingle(first[0], f);
    }
  }

  /** The walking column between `a` and `b` totals the measure of the
      walking row when there is one, and 0 otherwise. */
  lemma WalkTotal(a: Location, b: Location, haversine: (Location, Location) -> real, f: Segment -> real)
    ensures Sum(Column(WalkLegs(a, b, haversine), f))
         == if haversine(a, b) > WalkThreshold then f(WalkSegment(a, b, haversine(a, b))) else 0.0
  {
    if haversine(a, b) > WalkThreshold {
      SumCons(f(WalkSegment(a, b, haversine(a, b))), []);
    }
  }

  /** A row measure that agrees on transit rows with a leg measure additive
      for `cost` totals over an itinerary the measure of its walking rows
      plus the cost of its route. */
  lemma ItineraryTotal(edges: seq<Edge>, source: Location, dest: Location,
                       haversine: (Location, Location) -> real, metro: map<Location, string>,
                       bikolpo: map<Location, string>, uttara: map<Location, string>, segs: seq<Segment>,
                       f: Segment -> real, g: Leg -> real, cost: Edge -> real)
    requires segs == Segments(edges, source, dest, haversine, metro, bikolpo, uttara)
    requires Additive(g, cost) && forall leg :: f(TransitSegment(leg, metro, bikolpo, uttara)) == g(leg)
    ensures Sum(Column(segs, f))
         == Sum(Column(WalkLegs(source, EntryPoint(edges, source), haversine), f)) + PathCost(edges, cost)
          + Sum(Column(WalkLegs(ExitPoint(edges, dest), dest, haversine), f))
  {
    var head, legs := WalkLegs(source, EntryPoint(edges, source), haversine), Coalesce(edges);
    var mid, tail := Named(legs, metro, bikolpo, uttara), WalkLegs(ExitPoint(edges, dest), dest, haversine);
    ColumnAppend(head, mid, f);
    ColumnAppend(head + mid, tail, f);
    NamedTotal(legs, metro, bikolpo, uttara, f, g);
    CoalesceTotal(edges, g, cost);
  }

  /** The distances of an itinerary add up to its walking legs plus the
      length of the route. */
  lemma ItineraryDistance(edges: seq<Edge>, source: Location, dest: Location,
                          haversine: (Location, Location) -> real, metro: map<Location, string>,
                          bikolpo: map<Location, string>, uttara: map<Location, string>, segs: seq<Segment>)
    requires segs == Segments(edges, source, dest, haversine, metro, bikolpo, uttara)
    ensures Sum(Column(segs, SegLength)) == WalkDistance(source, EntryPoint(edges, source), haversine)
      + PathCost(edges, Problem1Cost) + WalkDistance(ExitPoint(edges, dest), dest, haversine)
  {
    LengthAdditive();
    ItineraryTotal(edges, source, dest, haversine, metro, bikolpo, uttara, segs, SegLength, LegLength, Problem1Cost);
    WalkTotal(source, EntryPoint(edges, source), haversine, SegLength);
    WalkTotal(ExitPoint(edges, dest), dest, haversine, SegLength);
  }

  /** Under a tariff that does not charge walking, the fares of an itinerary
      add up to the cost of its route, for a cost that charges each edge its
      distance times its mode's rate. */
  lemma ItineraryFare(edges: seq<Edge>, source: Location, dest: Location,
                      haversine: (Location, Location) -> real, metro: map<Location, string>,
                      bikolpo: map<Location, string>, uttara: map<Location, string>, segs: seq<Segment>,
                      t: Tariff, cost: Edge -> real)
    requires segs == Segments(edges, source, dest, haversine, metro, bikolpo, uttara)
    requires Walk !in t && forall e :: cost(e) == e.distance * Rate(t, e.mode)
    ensures Sum(Column(segs, SegFare(t))) == PathCost(edges, cost)
  {
    FareAdditive(t, cost);
    TransitFare(t, metro, bikolpo, uttara);
    ItineraryTotal(edges, source, dest, haversine, metro, bikolpo, uttara, segs, SegFare(t), TariffFare(t), cost);
    WalkFree(source, EntryPoint(edges, source), haversine, t);
    WalkFree(ExitPoint(edges, dest), dest, haversine, t);
  }

  lemma TransitFare(t: Tariff, metro: map<Location, string>, bikolpo: map<Location, string>, uttara: map<Location, string>)
    ensures forall leg :: SegFare(t)(TransitSegment(leg, metro, bikolpo, uttara)) == TariffFare(t)(leg)
  {
  }

  /** A tariff that does not charge walking charges no walking row. */
  lemma WalkFree(a: Location, b: Location, haversine: (Location, Location) -> real, t: Tariff)
    requires Walk !in t
    ensures Sum(Column(WalkLegs(a, b, haversine), SegFare(t))) == 0.0
  {
    WalkTotal(a, b, haversine, SegFare(t));
  }

  /** The cost column after charging a tariff: each row whose mode the
      tariff lists costs its distance times the rate; other rows keep their
      cost. */
  function PricedCosts(r: RouteResult, t: Tariff): (cs: seq<real>)
    requires Shaped(r)
    ensures |cs| == |r.costs|
    ensures forall i :: 0 <= i < |cs| ==> cs[i] == if r.modes[i] in t then r.distances[i] * t[r.modes[i]] else r.costs[i]
  {
    seq(|r.costs|, i requires 0 <= i < |r.costs| => if r.modes[i] in t then r.distances[i] * t[r.modes[i]] else r.costs[i])
  }

  /** Charging a tariff on rows that carry no cost yet gives each row its
      fare. */
  lemma PricedUnpriced(segs: seq<Segment>, t: Tariff)
    requires forall i :: 0 <= i < |segs| ==> segs[i].cost == 0.0
    ensures PricedCosts(FromSegments(segs), t) == Column(segs, SegFare(t))
  {
    var r := FromSegments(segs);
    forall i | 0 <= i < |segs| ensures PricedCosts(r, t)[i] == Column(segs, SegFare(t))[i] {
      if r.modes[i] !in t {
        assert Rate(t, segs[i].mode) == 0.0;
      }
    }
  }

  /** The distance column of the result of `segs` is the rows' lengths. */
  lemma DistancesColumn(segs: seq<Segment>)
    ensures FromSegments(segs).distances == Column(segs, SegLength)
  {
  }

  /** One step of grouping a route's edges from position `i`: an edge that
      continues the current leg extends it, any other closes it. */
  lemma CoalesceStep(edges: seq<Edge>, i: nat, current: Leg, closed: seq<Leg>)
    requires 1 <= i < |edges| && closed + Group(current, edges[i..]) == Coalesce(edges)
    ensures Continues(current, edges[i]) ==> closed + Group(Extend(current, edges[i]), edges[i + 1..]) == Coalesce(edges)
    ensures !Continues(current, edges[i]) ==> (closed + [current]) + Group(LegOf(edges[i]), edges[i + 1..]) == Coalesce(edges)
  {
    assert edges[i..][0] == edges[i] && edges[i..][1..] == edges[i + 1..];
  }

  /** Emitting the row of one more leg. */
  lemma RowStep(head: seq<Segment>, closed: seq<Leg>, leg: Leg, metro: map<Location, string>,
                bikolpo: map<Location, string>, uttara: map<Location, string>)
    ensures AddSegment(FromSegments(head + Named(closed, metro, bikolpo, uttara)), TransitSegment(leg, metro, bikolpo, uttara))
         == FromSegments(head + Named(closed + [leg], metro, bikolpo, uttara))
  {
    NamedSnoc(closed, leg, metro, bikolpo, uttara);
    FromSegmentsSnoc(head + Named(closed, metro, bikolpo, uttara), TransitSegment(leg, metro, bikolpo, uttara));
    assert head + Named(closed, metro, bikolpo, uttara) + [TransitSegment(leg, metro, bikolpo, uttara)]
        == head + Named(closed + [leg], metro, bikolpo, uttara);
  }

  /** Charging a tariff that agrees with `cost` and leaves walking free on
      the unpriced itinerary of `route` gives every row its fare and, as
      total, the cost of the route. */
  lemma FaresCharged(route: seq<Edge>, source: Location, dest: Location,
                     haversine: (Location, Location) -> real, metro: map<Location, string>,
                     bikolpo: map<Location, string>, uttara: map<Location, string>, rows: seq<Segment>,
                     t: Tariff, cost: Edge -> real, unpriced: RouteResult, priced: RouteResult)
    requires rows == Segments(route, source, dest, haversine, metro, bikolpo, uttara)
    requires Walk !in t && forall e :: cost(e) == e.distance * Rate(t, e.mode)
    requires unpriced == FromSegments(rows)
    requires priced == unpriced.(costs := PricedCosts(unpriced, t),
                                 totalValue := unpriced.totalValue + Sum(PricedCosts(unpriced, t)))
    ensures priced == FromSegments(rows).(costs := Column(rows, SegFare(t)), totalValue := PathCost(route, cost))
  {
    ItineraryUnpriced(route, source, dest, haversine, metro, bikolpo, uttara, rows);
    PricedUnpriced(rows, t);
    ItineraryFare(route, source, dest, haversine, metro, bikolpo, uttara, rows, t, cost);
  }

  /** A fare itinerary as problems 2 and 3 report it: six columns of equal
      length, every row charged its distance times the rate of its mode, and
      as total the sum of the row costs. */
  predicate Charged(r: RouteResult, t: Tariff) {
    && Shaped(r)
    && r.totalValue == Sum(r.costs)
    && (forall i :: 0 <= i < |r.costs| ==> r.costs[i] == r.distances[i] * Rate(t, r.modes[i]))
  }

  /** A distance itinerary as problem 1 reports it: six columns of equal
      length, no row charged, and as total the sum of the row distances. */
  predicate Measured(r: RouteResult) {
    && Shaped(r)
    && r.totalValue == Sum(r.distances)
    && (forall i :: 0 <= i < |r.costs| ==> r.costs[i] == 0.0)
  }

  /** The fare itinerary of a route, totalled at the route's cost, is
      charged row by row, and its walking rows cost nothing. */
  lemma ChargedItinerary(route: seq<Edge>, source: Location, dest: Location,
                         haversine: (Location, Location) -> real, metro: map<Location, string>,
                         bikolpo: map<Location, string>, uttara: map<Location, string>, rows: seq<Segment>,
                         t: Tariff, cost: Edge -> real, r: RouteResult)
    requires rows == Segments(route, source, dest, haversine, metro, bikolpo, uttara)
    requires Walk !in t && forall e :: cost(e) == e.distance * Rate(t, e.mode)
    requires r == FromSegments(rows).(costs := Column(rows, SegFare(t)), totalValue := PathCost(route, cost))
    ensures Charged(r, t)
    ensures forall i :: 0 <= i < |r.costs| && r.modes[i] == Walk ==> r.costs[i] == 0.0
  {
    ItineraryFare(route, source, dest, haversine, metro, bikolpo, uttara, rows, t, cost);
    ChargedRows(rows, t, r);
  }

  /** Rows whose cost column holds their fares, totalled over those fares,
      are charged; under a tariff that leaves walking free, walking rows
      cost nothing. */
  lemma ChargedRows(rows: seq<Segment>, t: Tariff, r: RouteResult)
    requires Walk !in t
    requires r == FromSegments(rows).(costs := Column(rows, SegFare(t)), totalValue := Sum(Column(rows, SegFare(t))))
    ensures Charged(r, t)
    ensures forall i :: 0 <= i < |r.costs| && r.modes[i] == Walk ==> r.costs[i] == 0.0
  {
    forall i | 0 <= i < |r.costs| ensures r.costs[i] == r.distances[i] * Rate(t, r.modes[i]) {
      assert r.costs[i] == SegFare(t)(rows[i]);
    }
    forall i | 0 <= i < |r.costs| && r.modes[i] == Walk ensures r.costs[i] == 0.0 {
      assert Rate(t, r.modes[i]) == 0.0;
    }
  }

  /** The distance itinerary of a route, totalled over its row distances,
      charges nothing. */
  lemma MeasuredItinerary(route: seq<Edge>, source: Location, dest: Location,
                          haversine: (Location, Location) -> real, metro: map<Location, string>,
                          bikolpo: map<Location, string>, uttara: map<Location, string>, rows: seq<Segment>,
                          r: RouteResult)
    requires rows == Segments(route, source, dest, haversine, metro, bikolpo, uttara)
    requires r == FromSegments(rows).(totalValue := Sum(Column(rows, SegLength)))
    ensures Measured(r)
  {
    ItineraryUnpriced(route, source, dest, haversine, metro, bikolpo, uttara, rows);
    DistancesColumn(rows);
  }
}
