// Transport modes, locations and edges of the Dhaka road/metro/bus network.
// Coordinates are degrees, distances kilometres, both modelled as reals.

module Routing {

  /** The five transport modes an edge can carry. */
  datatype TransportMode = Walk | Car | Metro | BusBikolpo | BusUttara

  /** Tolerance used by the location comparisons (degrees). */
  const Epsilon: real := 0.000001

  /** A geographic point: latitude and longitude in degrees. */
  datatype Location = Location(lat: real, lon: real)

  /** The default location, (0, 0). */
  function DefaultLocation(): (l: Location)
    ensures l.lat == 0.0 && l.lon == 0.0
  {
    Location(0.0, 0.0)
  }

  function Abs(x: real): real {
    if x < 0.0 then -x else x
  }

  /** The tolerant equality of locations: both coordinates closer than Epsilon. */
  predicate LocEqual(a: Location, b: Location) {
    Abs(a.lat - b.lat) < Epsilon && Abs(a.lon - b.lon) < Epsilon
  }

  /** Inequality, defined as the negation of LocEqual. */
  predicate LocNotEqual(a: Location, b: Location) {
    !LocEqual(a, b)
  }

  /** The ordering used as the key order of the network's maps and sets:
      by latitude when the latitudes differ by at least Epsilon, otherwise
      by the exact longitudes. */
  predicate LocLess(a: Location, b: Location) {
    if Abs(a.lat - b.lat) >= Epsilon then a.lat < b.lat else a.lon < b.lon
  }

  lemma NotEqualIsNegation(a: Location, b: Location)
    ensures LocNotEqual(a, b) <==> !LocEqual(a, b)
  {
  }

  lemma LocEqualReflexiveSymmetric(a: Location, b: Location)
    ensures LocEqual(a, a)
    ensures LocEqual(a, b) <==> LocEqual(b, a)
  {
  }

  /** LocLess is irreflexive, and it compares latitudes alone when they are
      at least Epsilon apart and exact longitudes otherwise. */
  lemma LocLessCases(a: Location, b: Location)
    ensures !LocLess(a, a)
    ensures Abs(a.lat - b.lat) >= Epsilon ==> (LocLess(a, b) <==> a.lat < b.lat)
    ensures Abs(a.lat - b.lat) < Epsilon ==> (LocLess(a, b) <==> a.lon < b.lon)
  {
  }

  /** Two locations the tolerant equality identifies can still be strictly
      ordered: equality and ordering disagree. */
  lemma EqualYetOrdered()
    ensures var a, b := Location(0.0, 0.0), Location(0.0, 0.0000005);
      LocEqual(a, b) && LocLess(a, b) && !LocLess(b, a)
  {
  }

  /** The tolerant equality is not transitive. */
  lemma LocEqualNotTransitive()
    ensures var a, b, c := Location(0.0, 0.0), Location(0.0000006, 0.0), Location(0.0000012, 0.0);
      LocEqual(a, b) && LocEqual(b, c) && !LocEqual(a, c)
  {
  }

  /** Two keys are merged by an ordered map exactly when neither precedes the
      other; under LocLess that needs latitudes within Epsilon and IDENTICAL
      longitudes, so ordered maps do not merge every pair LocEqual identifies. */
  lemma MapEquivalence(a: Location, b: Location)
    ensures (!LocLess(a, b) && !LocLess(b, a)) <==> (Abs(a.lat - b.lat) < Epsilon && a.lon == b.lon)
    ensures (!LocLess(a, b) && !LocLess(b, a)) ==> LocEqual(a, b)
  {
  }

  /** As written, LocLess is not even transitive: here x < y < z < x. */
  lemma LocLessCycle()
    ensures var x, y, z := Location(0.0000012, 0.0), Location(0.0000006, 1.0), Location(0.0, 2.0);
      LocLess(x, y) && LocLess(y, z) && LocLess(z, x)
  {
  }

  /** The evidently intended key order: exact lexicographic order on
      (latitude, longitude). */
  predicate LexLess(a: Location, b: Location) {
    a.lat < b.lat || (a.lat == b.lat && a.lon < b.lon)
  }

  lemma LexLessIsStrictTotalOrder(a: Location, b: Location, c: Location)
    ensures !LexLess(a, a)
    ensures LexLess(a, b) && LexLess(b, c) ==> LexLess(a, c)
    ensures a == b || LexLess(a, b) || LexLess(b, a)
    ensures !(LexLess(a, b) && LexLess(b, a))
  {
  }

  /** Whether x is an integer (as a real). */
  predicate IsWhole(x: real) {
    x == x.Floor as real
  }

  /** A location on the micro-degree grid: both coordinates are whole
      multiples of Epsilon. */
  predicate OnGrid(l: Location) {
    IsWhole(l.lat * 1000000.0) && IsWhole(l.lon * 1000000.0)
  }

  /** Two grid coordinates are closer than Epsilon only when they are equal. */
  lemma {:induction false} GridCoordinates(x: real, y: real)
    requires IsWhole(x * 1000000.0) && IsWhole(y * 1000000.0)
    ensures Abs(x - y) < Epsilon <==> x == y
  {
    var m, n := (x * 1000000.0).Floor, (y * 1000000.0).Floor;
    assert (x - y) * 1000000.0 == (m - n) as real;
    if Abs(x - y) < Epsilon {
      assert -1 < m - n < 1;
      assert m == n;
    }
  }

  /** On grid points the tolerant comparisons coincide with exact equality
      and with LexLess; this is what lets the rest of the model key its maps
      by exact locations. */
  lemma {:induction false} GridComparisonsAreExact(a: Location, b: Location)
    requires OnGrid(a) && OnGrid(b)
    ensures LocEqual(a, b) <==> a == b
    ensures LocLess(a, b) <==> LexLess(a, b)
  {
    GridCoordinates(a.lat, b.lat);
    GridCoordinates(a.lon, b.lon);
  }

  /** A directed edge of the network. */
  datatype Edge = Edge(start: Location, end: Location, distance: real, mode: TransportMode, name: string)

  /** The default edge: a zero-length walk at (0, 0) without a name. */
  function DefaultEdge(): (e: Edge)
    ensures e.start == DefaultLocation() && e.end == DefaultLocation()
    ensures e.distance == 0.0 && e.mode == Walk && e.name == ""
  {
    Edge(DefaultLocation(), DefaultLocation(), 0.0, Walk, "")
  }

  /** The full edge constructor; the name defaults to the empty string. */
  function NewEdge(s: Location, e: Location, d: real, m: TransportMode, n: string := ""): (r: Edge)
    ensures r.start == s && r.end == e && r.distance == d && r.mode == m && r.name == n
  {
    Edge(s, e, d, m, n)
  }

  lemma NewEdgeDefaultName(s: Location, e: Location, d: real, m: TransportMode)
    ensures NewEdge(s, e, d, m).name == ""
  {
  }

  /** The display name of a transport mode. */
  function ModeName(m: TransportMode): string {
    match m
    case Walk => "Walk"
    case Car => "Car"
    case Metro => "Metro"
    case BusBikolpo => "Bikolpo Bus"
    case BusUttara => "Uttara Bus"
  }

  /** The five names are distinct, so a name identifies its mode. */
  lemma ModeNamesDistinct(m: TransportMode, n: TransportMode)
    ensures ModeName(m) == ModeName(n) <==> m == n
  {
  }
}
