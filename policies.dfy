// The cost policies of the route solvers: the per-kilometre rates of each
// problem, and the edge-cost functions the shortest-route search minimises.

module Pricing {
  import opened Routing
  import opened Graph
  import opened Paths

  /** Taka per kilometre by car, by metro and by either bus. */
  const CarRate: real := 20.0
  const MetroRate: real := 5.0
  const BusRate: real := 7.0

  /** A tariff gives a per-kilometre rate to some modes; the others are not
      charged by it. */
  type Tariff = map<TransportMode, real>

  /** Problem 2 charges car and metro travel. */
  const Problem2Tariff: Tariff := map[Car := CarRate, Metro := MetroRate]

  /** Problem 3 also charges both buses. */
  const Problem3Tariff: Tariff := map[Car := CarRate, Metro := MetroRate, BusBikolpo := BusRate, BusUttara := BusRate]

  /** The rate a tariff charges for a mode, zero for a mode it does not list. */
  function Rate(t: Tariff, m: TransportMode): real {
    if m in t then t[m] else 0.0
  }

  /** Problem 1 minimises distance. */
  function Problem1Cost(e: Edge): real {
    e.distance
  }

  /** Problem 2 minimises fare: car at 20, metro at 5, anything else free. */
  function Problem2Cost(e: Edge): real {
    if e.mode == Car then e.distance * CarRate
    else if e.mode == Metro then e.distance * MetroRate
    else 0.0
  }

  /** Problem 3 minimises fare with buses at 7 as well. */
  function Problem3Cost(e: Edge): real {
    if e.mode == Car then e.distance * CarRate
    else if e.mode == Metro then e.distance * MetroRate
    else if e.mode == BusBikolpo || e.mode == BusUttara then e.distance * BusRate
    else 0.0
  }

  /** The rates of each problem, mode by mode. */
  lemma TariffRates()
    ensures Rate(Problem2Tariff, Car) == 20.0 && Rate(Problem2Tariff, Metro) == 5.0
    ensures Rate(Problem2Tariff, BusBikolpo) == 0.0 && Rate(Problem2Tariff, BusUttara) == 0.0
    ensures Rate(Problem3Tariff, Car) == 20.0 && Rate(Problem3Tariff, Metro) == 5.0
    ensures Rate(Problem3Tariff, BusBikolpo) == 7.0 && Rate(Problem3Tariff, BusUttara) == 7.0
    ensures Walk !in Problem2Tariff && Walk !in Problem3Tariff
  {
  }

  /** The search costs of problems 2 and 3 charge an edge its distance times
      the rate of its mode, so they agree with the tariffs the itineraries
      are priced by. */
  lemma CostsFollowTariffs(e: Edge)
    ensures Problem2Cost(e) == e.distance * Rate(Problem2Tariff, e.mode)
    ensures Problem3Cost(e) == e.distance * Rate(Problem3Tariff, e.mode)
    ensures Problem1Cost(e) == e.distance
  {
  }

  /** Problem 3 charges car and metro exactly as problem 2 does, and never
      less than problem 2 for a non-negative distance. */
  lemma Problem3ExtendsProblem2(e: Edge)
    ensures e.mode != BusBikolpo && e.mode != BusUttara ==> Problem3Cost(e) == Problem2Cost(e)
    ensures e.distance >= 0.0 ==> Problem2Cost(e) <= Problem3Cost(e)
  {
  }

  /** Every stored edge has a non-negative distance. */
  ghost predicate DistancesNonNegative(adj: map<Location, seq<Edge>>) {
    forall u, e {:trigger e in adj[u]} :: u in adj && e in adj[u] ==> e.distance >= 0.0
  }

  /** With non-negative distances, all three costs are non-negative on the
      network, as the search needs. */
  lemma CostsNonNegative(adj: map<Location, seq<Edge>>)
    requires DistancesNonNegative(adj)
    ensures NonNegativeOn(adj, Problem1Cost)
    ensures NonNegativeOn(adj, Problem2Cost)
    ensures NonNegativeOn(adj, Problem3Cost)
  {
    forall u, e | u in adj && e in adj[u]
      ensures Problem1Cost(e) >= 0.0 && Problem2Cost(e) >= 0.0 && Problem3Cost(e) >= 0.0
    {
      assert e.distance >= 0.0;
    }
  }
}
