/**
 * The basic scenarios of the repository as clients of the dispatcher: each
 * builds a city, sets the roster, reports the listed fires and states what
 * the scenario asserts about the firefighters and the buildings afterwards.
 */
module Scenarios {
  import opened Wrappers
  import opened Cities
  import opened Firefighters
  import opened Plans
  import opened Fires
  import opened SearchFacts
  import opened Dispatch

  /** The 2-by-2 city: buildings 0..3 at (0,0), (0,1), (1,0), (1,1); the station is building 0. */
  function Square(): seq<Loc>
  {
    [Loc(0, 0), Loc(0, 1), Loc(1, 0), Loc(1, 1)]
  }

  /** The 5-by-5 city: building `b` stands at (b / 5, b % 5). */
  function Grid5(): (locs: seq<Loc>)
    ensures |locs| == 25
  {
    seq(25, b => Loc(b / 5, b % 5))
  }

  /** A list holding exactly one building is that building alone. */
  lemma OneStop(t: seq<nat>, a: nat)
    requires multiset(t) == multiset{a}
    ensures t == [a]
  {
    assert |t| == |multiset(t)| == 1;
    assert t[0] in multiset(t);
  }

  /** A list holding exactly two different buildings lists them in one of two orders. */
  lemma TwoStops(t: seq<nat>, a: nat, b: nat)
    requires a != b && multiset(t) == multiset{a, b}
    ensures |t| == 2 && ((t[0] == a && t[1] == b) || (t[0] == b && t[1] == a))
  {
    assert |t| == |multiset(t)| == 2;
    assert t[0] in multiset(t) && t[1] in multiset(t);
    assert multiset(t) == multiset{t[0], t[1]} by {
      assert t == [t[0]] + [t[1]];
    }
  }

  /** With one firefighter, a complete plan is the station followed by a reordering of the fires. */
  lemma SoleRoute(station: nat, bs: seq<nat>, p: Plan)
    requires CompletePlan(station, bs, 1, p)
    ensures p == [[station] + Tail(p[0])] && multiset(Tail(p[0])) == multiset(bs)
  {
    assert p[1..] == [];
    assert Stops(p) == Tail(p[0]) + [];
    assert p[0] == [station] + Tail(p[0]);
  }

  /** A single route from the station through the fires is a complete plan for one firefighter. */
  lemma OneRoute(station: nat, bs: seq<nat>, r: Route)
    requires r == [station] + Tail(r) && multiset(Tail(r)) == multiset(bs)
    ensures CompletePlan(station, bs, 1, [r])
  {
    assert Stops([r]) == Tail(r) + Stops([]);
  }

  /**
   * A dispatch by the one firefighter of a fresh roster standing at the
   * station: the committed plan is complete and optimal, exactly the
   * reported fires are put out and the firefighter has walked its route.
   */
  method DispatchAlone(locs: seq<Loc>, station: nat, fires: seq<bool>, nodes: seq<Option<nat>>)
    returns (plan: Plan, after: seq<bool>, distance: nat, location: Loc)
    requires station < |locs| && |fires| == |locs| && InCity(nodes, |locs|)
    requires Distinct(Filter(nodes, fires))
    ensures CompletePlan(station, Filter(nodes, fires), 1, plan)
    ensures Optimal(PlanCost(locs, plan), locs, station, Filter(nodes, fires), 1)
    ensures after == Cleared(fires, Filter(nodes, fires))
    ensures distance == PathLength(locs[station], SitesOf(locs, Tail(plan[0])))
    ensures location == EndOf(locs[station], SitesOf(locs, Tail(plan[0])))
  {
    var city := new City(locs, station, fires);
    var dispatch := new FireDispatch(city);
    dispatch.SetFirefighters(1);
    ghost var starts, odometers := Locations(dispatch.Roster()), Distances(dispatch.Roster());
    var outcome := dispatch.DispatchFirefighters(nodes);
    plan := outcome.plan;
    after := city.burning[..];
    var firefighter := dispatch.Roster()[0];
    assert dispatch.Walked(firefighter, starts[0], odometers[0], plan[0]);
    distance, location := firefighter.distance, firefighter.location;
  }

  /**
   * A dispatch by the two firefighters of a fresh roster standing at the
   * station: the committed plan is complete and optimal, exactly the
   * reported fires are put out, and firefighter `f` (odometer `df`, standing
   * at `lf`) has walked route `f`.
   */
  method DispatchPair(locs: seq<Loc>, station: nat, fires: seq<bool>, nodes: seq<Option<nat>>)
    returns (plan: Plan, after: seq<bool>, d0: nat, d1: nat, l0: Loc, l1: Loc)
    requires station < |locs| && |fires| == |locs| && InCity(nodes, |locs|)
    requires Distinct(Filter(nodes, fires))
    ensures CompletePlan(station, Filter(nodes, fires), 2, plan)
    ensures Optimal(PlanCost(locs, plan), locs, station, Filter(nodes, fires), 2)
    ensures after == Cleared(fires, Filter(nodes, fires))
    ensures d0 == PathLength(locs[station], SitesOf(locs, Tail(plan[0])))
    ensures l0 == EndOf(locs[station], SitesOf(locs, Tail(plan[0])))
    ensures d1 == PathLength(locs[station], SitesOf(locs, Tail(plan[1])))
    ensures l1 == EndOf(locs[station], SitesOf(locs, Tail(plan[1])))
  {
    var city := new City(locs, station, fires);
    var dispatch := new FireDispatch(city);
    dispatch.SetFirefighters(2);
    ghost var starts, odometers := Locations(dispatch.Roster()), Distances(dispatch.Roster());
    var outcome := dispatch.DispatchFirefighters(nodes);
    plan := outcome.plan;
    after := city.burning[..];
    var first, second := dispatch.Roster()[0], dispatch.Roster()[1];
    assert dispatch.Walked(first, starts[0], odometers[0], plan[0]);
    assert dispatch.Walked(second, starts[1], odometers[1], plan[1]);
    d0, l0, d1, l1 := first.distance, first.location, second.distance, second.location;
  }

  /** A single report of a burning building passes the filter unchanged. */
  lemma SingleReport(fires: seq<bool>, b: nat)
    requires b < |fires| && fires[b]
    ensures InCity([Some(b)], |fires|) && Filter([Some(b)], fires) == [b] && Distinct([b])
  {
    assert [Some(b)][1..] == [];
    assert multiset([b]) == multiset{b};
  }

  /** singleFire: one firefighter puts out the fire at (0,1) of a 5-by-5 city. */
  method SingleFire() returns (burning: bool)
    ensures !burning
  {
    var fires := seq(25, b => b == 1);
    SingleReport(fires, 1);
    var plan, after, distance, location := DispatchAlone(Grid5(), 0, fires, [Some(1)]);
    ClearedAt(fires, [1], 1);
    burning := after[1];
  }

  /** singleFireAtStartingLocation: with the station at (1,1), a null report moves nobody. */
  method NullFire() returns (distance: nat, location: Loc)
    ensures distance == 0 && location == Loc(1, 1)
  {
    var fires := seq(25, b => false);
    assert Filter([None], fires) == [];
    var plan, after;
    plan, after, distance, location := DispatchAlone(Grid5(), 6, fires, [None]);
    NothingToDispatch(Grid5(), 6, 1, plan, 0, Grid5()[6]);
    assert Grid5()[6] == Loc(1, 1);
  }

  /**
   * The one route of a complete plan for one firefighter, from the station
   * at building 0, is the station and then the fires in some order, and the
   * walk along it has the route's length and ends at its last building.
   */
  lemma SoleRouteWalk(locs: seq<Loc>, bs: seq<nat>, plan: Plan)
    requires 0 < |locs| && CompletePlan(0, bs, 1, plan)
    ensures plan[0] == [0] + Tail(plan[0]) && multiset(Tail(plan[0])) == multiset(bs)
    ensures PathLength(locs[0], SitesOf(locs, Tail(plan[0]))) == RouteCost(locs, plan[0])
    ensures EndOf(locs[0], SitesOf(locs, Tail(plan[0]))) == Site(locs, plan[0][|plan[0]| - 1])
  {
    SoleRoute(0, bs, plan);
    RouteCostWalk(locs, 0, Tail(plan[0]));
  }

  /** No route from the station through the fires is shorter than the route of an optimal plan. */
  lemma SoleRouteBest(locs: seq<Loc>, bs: seq<nat>, plan: Plan, r: Route)
    requires CompletePlan(0, bs, 1, plan) && Optimal(PlanCost(locs, plan), locs, 0, bs, 1)
    requires r == [0] + Tail(r) && multiset(Tail(r)) == multiset(bs)
    ensures RouteCost(locs, plan[0]) <= RouteCost(locs, r)
  {
    SoleRoute(0, bs, plan);
    OneRoute(0, bs, r);
    assert PlanCost(locs, plan) == RouteCost(locs, plan[0]) + PlanCost(locs, []);
    assert PlanCost(locs, [r]) == RouteCost(locs, r) + PlanCost(locs, []);
  }

  /** The only complete plan for the fire at building `b` alone is to walk there. */
  lemma SingleStopWalk(locs: seq<Loc>, b: nat, plan: Plan)
    requires 0 < |locs| && CompletePlan(0, [b], 1, plan)
    ensures PathLength(locs[0], SitesOf(locs, Tail(plan[0]))) == Leg(locs, 0, b)
    ensures EndOf(locs[0], SitesOf(locs, Tail(plan[0]))) == Site(locs, b)
  {
    SoleRouteWalk(locs, [b], plan);
    OneStop(Tail(plan[0]), b);
    assert plan[0] == [0, b];
  }

  /** A route through two buildings after its first costs the two legs between them. */
  lemma TwoLegs(locs: seq<Loc>, r: Route)
    requires |r| == 3
    ensures RouteCost(locs, r) == Leg(locs, r[0], r[1]) + Leg(locs, r[1], r[2])
  {
    RouteCostSnoc(locs, r[..2], r[2]);
    RouteCostSnoc(locs, r[..1], r[1]);
    assert r[..2] + [r[2]] == r && r[..1] + [r[1]] == r[..2];
  }

  /** The corners of the 2-by-2 city, building by building. */
  predicate SquareCorners(locs: seq<Loc>)
  {
    |locs| == 4 && locs[0] == Loc(0, 0) && locs[1] == Loc(0, 1) && locs[2] == Loc(1, 0) && locs[3] == Loc(1, 1)
  }

  /** Visiting (0,1) and then (1,1) from the station costs 2. */
  lemma NearFirstCost(locs: seq<Loc>, r: Route)
    requires SquareCorners(locs)
    requires |r| == 3 && r[0] == 0 && r[1] == 1 && r[2] == 3
    ensures RouteCost(locs, r) == 2
  {
    TwoLegs(locs, r);
    ManhattanOf(locs[0], locs[1], 0, 1);
    ManhattanOf(locs[1], locs[3], 1, 0);
  }

  /** Visiting (1,1) and then (0,1) from the station costs 3. */
  lemma FarFirstCost(locs: seq<Loc>, r: Route)
    requires SquareCorners(locs)
    requires |r| == 3 && r[0] == 0 && r[1] == 3 && r[2] == 1
    ensures RouteCost(locs, r) == 3
  {
    TwoLegs(locs, r);
    ManhattanOf(locs[0], locs[3], 1, 1);
    ManhattanOf(locs[3], locs[1], 1, 0);
  }

  /** The fires at (0,1) and (1,1), reported in that order. */
  predicate NearAndFar(bs: seq<nat>)
  {
    |bs| == 2 && bs[0] == 1 && bs[1] == 3
  }

  /** For the fires at (0,1) and (1,1), an optimal route does not go to (1,1) first: that costs 3, the other order 2. */
  lemma NotFarFirst(locs: seq<Loc>, bs: seq<nat>, plan: Plan)
    requires SquareCorners(locs) && NearAndFar(bs)
    requires CompletePlan(0, bs, 1, plan) && Optimal(PlanCost(locs, plan), locs, 0, bs, 1)
    ensures !(|plan[0]| == 3 && plan[0][0] == 0 && plan[0][1] == 3 && plan[0][2] == 1)
  {
    var route := plan[0];
    if |route| == 3 && route[0] == 0 && route[1] == 3 && route[2] == 1 {
      var rival := [0, route[2], route[1]];
      assert Tail(route) == [route[1], route[2]];
      assert Tail(rival) == [route[2], route[1]] && rival == [0] + Tail(rival);
      SoleRoute(0, bs, plan);
      assert bs == [bs[0]] + [bs[1]];
      assert multiset(Tail(rival)) == multiset(bs);
      SoleRouteBest(locs, bs, plan, rival);
      FarFirstCost(locs, route);
      NearFirstCost(locs, rival);
    }
  }

  /** For the fires at (0,1) and (1,1), the optimal route goes to (0,1) first. */
  lemma NearFirst(locs: seq<Loc>, bs: seq<nat>, plan: Plan)
    requires SquareCorners(locs) && NearAndFar(bs)
    requires CompletePlan(0, bs, 1, plan) && Optimal(PlanCost(locs, plan), locs, 0, bs, 1)
    ensures |plan[0]| == 3 && plan[0][0] == 0 && plan[0][1] == 1 && plan[0][2] == 3
  {
    SoleRoute(0, bs, plan);
    assert bs == [bs[0]] + [bs[1]];
    TwoStops(Tail(plan[0]), 1, 3);
    NotFarFirst(locs, bs, plan);
  }

  /** Walking to (0,1) and then to (1,1) covers 2 and ends at (1,1). */
  lemma DoubleFireWalk(locs: seq<Loc>, bs: seq<nat>, plan: Plan)
    requires SquareCorners(locs) && CompletePlan(0, bs, 1, plan)
    requires |plan[0]| == 3 && plan[0][0] == 0 && plan[0][1] == 1 && plan[0][2] == 3
    ensures PathLength(locs[0], SitesOf(locs, Tail(plan[0]))) == 2
    ensures EndOf(locs[0], SitesOf(locs, Tail(plan[0]))) == Loc(1, 1)
  {
    SoleRouteWalk(locs, bs, plan);
    NearFirstCost(locs, plan[0]);
  }

  /** singleFireDistanceTraveledDiagonal: the walk to the opposite corner is 2 long. */
  method Diagonal() returns (distance: nat, location: Loc)
    ensures distance == 2 && location == Loc(1, 1)
  {
    var fires := [false, false, false, true];
    SingleReport(fires, 3);
    SquareDiagonal();
    var plan, after;
    plan, after, distance, location := DispatchAlone(Square(), 0, fires, [Some(3)]);
    SingleStopWalk(Square(), 3, plan);
  }

  /** singleFireDistanceTraveledAdjacent: the walk to the neighbour is 1 long. */
  method Adjacent() returns (distance: nat, location: Loc)
    ensures distance == 1 && location == Loc(1, 0)
  {
    var fires := [false, false, true, false];
    SingleReport(fires, 2);
    SquareGaps();
    assert Site(Square(), 2) == Loc(1, 0);
    var plan, after;
    plan, after, distance, location := DispatchAlone(Square(), 0, fires, [Some(2)]);
    SingleStopWalk(Square(), 2, plan);
  }

  /**
   * The outcome the simple double fire asks for: the optimal single route
   * walks 2, ends at (1,1), and leaves neither fire burning.
   */
  lemma DoubleFireOutcome(locs: seq<Loc>, bs: seq<nat>, fires: seq<bool>, plan: Plan)
    requires SquareCorners(locs) && NearAndFar(bs) && |fires| == 4
    requires CompletePlan(0, bs, 1, plan) && Optimal(PlanCost(locs, plan), locs, 0, bs, 1)
    ensures PathLength(locs[0], SitesOf(locs, Tail(plan[0]))) == 2
    ensures EndOf(locs[0], SitesOf(locs, Tail(plan[0]))) == Loc(1, 1)
    ensures !Cleared(fires, bs)[1] && !Cleared(fires, bs)[3]
  {
    NearFirst(locs, bs, plan);
    DoubleFireWalk(locs, bs, plan);
    ClearedAt(fires, bs, 1);
    ClearedAt(fires, bs, 3);
  }

  /** The dispatch of the simple double fire, for any city with the corners of the 2-by-2 city. */
  method DispatchNearAndFar(locs: seq<Loc>, fires: seq<bool>, nodes: seq<Option<nat>>)
    returns (distance: nat, location: Loc, burning: bool)
    requires SquareCorners(locs) && |fires| == 4 && InCity(nodes, 4)
    requires NearAndFar(Filter(nodes, fires)) && Distinct(Filter(nodes, fires))
    ensures distance == 2 && location == Loc(1, 1) && !burning
  {
    var plan, after;
    plan, after, distance, location := DispatchAlone(locs, 0, fires, nodes);
    DoubleFireOutcome(locs, Filter(nodes, fires), fires, plan);
    burning := after[1] || after[3];
  }

  /** The reports of (0,1) and (1,1), both burning, pass the filter unchanged. */
  lemma NearAndFarReports(nodes: seq<Option<nat>>, fires: seq<bool>)
    requires nodes == [Some(1), Some(3)] && fires == [false, true, false, true]
    ensures InCity(nodes, 4) && NearAndFar(Filter(nodes, fires)) && Distinct(Filter(nodes, fires))
  {
    assert Filter(nodes, fires) == [1, 3];
    assert multiset([1, 3]) == multiset{1, 3};
  }

  /** simpleDoubleFire: one firefighter puts out both fires, 2 in all, ending at (1,1). */
  method SimpleDoubleFire() returns (distance: nat, location: Loc, burning: bool)
    ensures distance == 2 && location == Loc(1, 1) && !burning
  {
    var fires := [false, true, false, true];
    var nodes := [Some(1), Some(3)];
    NearAndFarReports(nodes, fires);
    assert SquareCorners(Square());
    distance, location, burning := DispatchNearAndFar(Square(), fires, nodes);
  }

  /** A route of one building after its first costs the one leg to it. */
  lemma OneLeg(locs: seq<Loc>, r: Route)
    requires |r| == 2
    ensures RouteCost(locs, r) == Leg(locs, r[0], r[1])
  {
    RouteCostSnoc(locs, r[..1], r[1]);
    assert r[..1] + [r[1]] == r;
  }

  /** The fires at (0,1) and (1,0), reported in that order. */
  predicate BothNeighbours(bs: seq<nat>)
  {
    |bs| == 2 && bs[0] == 1 && bs[1] == 2
  }

  /** The stops of a two-route plan are the two tails, one after the other. */
  lemma PairStops(p: Plan)
    requires |p| == 2
    ensures Stops(p) == Tail(p[0]) + Tail(p[1])
  {
    assert p[1..][1..] == [];
    assert Stops(p[1..]) == Tail(p[1]) + [];
  }

  /** From the station at building 0 buildings 1 and 2 are each 1 away, and they are 2 apart. */
  predicate NeighbourGaps(locs: seq<Loc>)
  {
    Leg(locs, 0, 1) == 1 && Leg(locs, 0, 2) == 1 && Leg(locs, 1, 2) == 2 && Leg(locs, 2, 1) == 2
  }

  /** The two neighbours of the station of the 2-by-2 city are 1 away from it and 2 apart. */
  lemma NeighbourLegs(locs: seq<Loc>)
    requires SquareCorners(locs)
    ensures NeighbourGaps(locs)
  {
    LegOf(locs, 0, 1, 0, 1);
    LegOf(locs, 0, 2, 1, 0);
    LegOf(locs, 1, 2, 1, 1);
    ManhattanSymmetric(locs[1], locs[2]);
  }

  /** In the 2-by-2 city the station's neighbours (0,1) and (1,0) are 1 away from it and 2 apart. */
  lemma SquareGaps()
    ensures |Square()| == 4 && NeighbourGaps(Square())
  {
    assert SquareCorners(Square());
    NeighbourLegs(Square());
  }

  /** In the 2-by-2 city the opposite corner (1,1) is 2 away from the station. */
  lemma SquareDiagonal()
    ensures Leg(Square(), 0, 3) == 2 && Site(Square(), 3) == Loc(1, 1)
  {
    assert SquareCorners(Square());
    LegOf(Square(), 0, 3, 1, 1);
  }

  /** Two buildings `dx` apart across and `dy` apart along are `dx + dy` apart. */
  lemma LegOf(locs: seq<Loc>, a: nat, b: nat, dx: nat, dy: nat)
    requires a < |locs| && b < |locs|
    requires locs[a].x - locs[b].x == dx || locs[b].x - locs[a].x == dx
    requires locs[a].y - locs[b].y == dy || locs[b].y - locs[a].y == dy
    ensures Leg(locs, a, b) == dx + dy
  {
    ManhattanOf(locs[a], locs[b], dx, dy);
  }

  /** A plan of two routes costs the two route costs. */
  lemma PairCost(locs: seq<Loc>, p: Plan)
    requires |p| == 2
    ensures PlanCost(locs, p) == RouteCost(locs, p[0]) + RouteCost(locs, p[1])
  {
    assert p[1..][0] == p[1] && p[1..][1..] == [];
    assert PlanCost(locs, p[1..]) == RouteCost(locs, p[1]) + PlanCost(locs, []);
  }

  /** Sending one firefighter to each neighbour of the station costs 2 in all. */
  lemma SplitCost(locs: seq<Loc>, p: Plan)
    requires NeighbourGaps(locs) && |p| == 2 && |p[0]| == 2 && |p[1]| == 2 && p[0][0] == 0 && p[1][0] == 0
    requires (p[0][1] == 1 && p[1][1] == 2) || (p[0][1] == 2 && p[1][1] == 1)
    ensures PlanCost(locs, p) == 2
  {
    PairCost(locs, p);
    OneLeg(locs, p[0]);
    OneLeg(locs, p[1]);
  }

  /** One route from the station through both neighbours, in either order, costs 3. */
  lemma ChainCost(locs: seq<Loc>, r: Route)
    requires NeighbourGaps(locs) && |r| == 3 && r[0] == 0
    requires (r[1] == 1 && r[2] == 2) || (r[1] == 2 && r[2] == 1)
    ensures RouteCost(locs, r) == 3
  {
    TwoLegs(locs, r);
  }

  /** For the two neighbours and two firefighters, some complete plan costs 2. */
  lemma SplitWitness(locs: seq<Loc>, bs: seq<nat>)
    requires NeighbourGaps(locs) && BothNeighbours(bs)
    ensures CompletePlan(0, bs, 2, [[0, bs[0]], [0, bs[1]]])
    ensures PlanCost(locs, [[0, bs[0]], [0, bs[1]]]) == 2
  {
    var p := [[0, bs[0]], [0, bs[1]]];
    PairStops(p);
    assert Tail(p[0]) == [bs[0]] && Tail(p[1]) == [bs[1]] && bs == [bs[0]] + [bs[1]];
    SplitCost(locs, p);
  }

  /** The two neighbours, as a multiset. */
  lemma NeighbourStops(bs: seq<nat>)
    requires BothNeighbours(bs)
    ensures multiset(bs) == multiset{1, 2}
  {
    assert bs == [1] + [2];
  }

  /** When one route of a complete two-route plan holds both fires, the other holds none. */
  lemma LoneRoute(bs: seq<nat>, plan: Plan, f: nat)
    requires BothNeighbours(bs) && f < 2 && CompletePlan(0, bs, 2, plan) && |Tail(plan[f])| == 2
    ensures Tail(plan[1 - f]) == [] && multiset(Tail(plan[f])) == multiset(bs)
  {
    PairStops(plan);
    assert |Stops(plan)| == |multiset(Stops(plan))| == |multiset(bs)| == |bs| == 2;
    var t, u := Tail(plan[f]), Tail(plan[1 - f]);
    assert u == [];
    assert Stops(plan) == t by {
      if f == 0 {
        assert Tail(plan[0]) + [] == Tail(plan[0]);
      } else {
        assert [] + Tail(plan[1]) == Tail(plan[1]);
      }
    }
  }

  /** A complete plan for the two neighbours that gives both to firefighter `f` leaves the other at the station. */
  lemma ChainedPlan(bs: seq<nat>, plan: Plan, f: nat)
    requires BothNeighbours(bs) && f < 2 && CompletePlan(0, bs, 2, plan) && |Tail(plan[f])| == 2
    ensures plan[1 - f] == [0] && |plan[f]| == 3 && plan[f][0] == 0
    ensures (plan[f][1] == 1 && plan[f][2] == 2) || (plan[f][1] == 2 && plan[f][2] == 1)
  {
    LoneRoute(bs, plan, f);
    NeighbourStops(bs);
    var g := 1 - f;
    assert plan[g] == [plan[g][0]] + Tail(plan[g]);
    TwoStops(Tail(plan[f]), 1, 2);
    assert plan[f] == [plan[f][0]] + Tail(plan[f]);
  }

  /** An optimal plan for the two neighbours does not give both to firefighter `f`: that costs 3, the split 2. */
  lemma NotChained(locs: seq<Loc>, bs: seq<nat>, plan: Plan, f: nat)
    requires NeighbourGaps(locs) && BothNeighbours(bs) && f < 2
    requires CompletePlan(0, bs, 2, plan) && Optimal(PlanCost(locs, plan), locs, 0, bs, 2)
    ensures |Tail(plan[f])| != 2
  {
    if |Tail(plan[f])| == 2 {
      ChainedPlan(bs, plan, f);
      ChainCost(locs, plan[f]);
      assert RouteCost(locs, plan[1 - f]) == 0;
      PairCost(locs, plan);
      SplitWitness(locs, bs);
    }
  }

  /** An optimal plan for the two neighbours sends each firefighter to one of them. */
  lemma PairSplit(locs: seq<Loc>, bs: seq<nat>, plan: Plan)
    requires NeighbourGaps(locs) && BothNeighbours(bs)
    requires CompletePlan(0, bs, 2, plan) && Optimal(PlanCost(locs, plan), locs, 0, bs, 2)
    ensures |plan[0]| == 2 && |plan[1]| == 2 && plan[0][0] == 0 && plan[1][0] == 0
    ensures (plan[0][1] == 1 && plan[1][1] == 2) || (plan[0][1] == 2 && plan[1][1] == 1)
    ensures PlanCost(locs, plan) == 2
  {
    PairStops(plan);
    NotChained(locs, bs, plan, 0);
    NotChained(locs, bs, plan, 1);
    var t := Tail(plan[0]) + Tail(plan[1]);
    NeighbourStops(bs);
    TwoStops(t, 1, 2);
    assert |Tail(plan[0])| == 1 && |Tail(plan[1])| == 1;
    assert t[0] == plan[0][1] && t[1] == plan[1][1];
    SplitCost(locs, plan);
  }

  /**
   * The walks along an optimal plan for the two neighbours: together they
   * cover 2, and one ends at each neighbour.
   */
  lemma PairWalks(locs: seq<Loc>, bs: seq<nat>, plan: Plan)
    requires NeighbourGaps(locs) && BothNeighbours(bs)
    requires CompletePlan(0, bs, 2, plan) && Optimal(PlanCost(locs, plan), locs, 0, bs, 2)
    ensures PathLength(Site(locs, 0), SitesOf(locs, Tail(plan[0]))) + PathLength(Site(locs, 0), SitesOf(locs, Tail(plan[1]))) == 2
    ensures var e0, e1 := EndOf(Site(locs, 0), SitesOf(locs, Tail(plan[0]))), EndOf(Site(locs, 0), SitesOf(locs, Tail(plan[1])));
            (e0 == Site(locs, 1) && e1 == Site(locs, 2)) || (e0 == Site(locs, 2) && e1 == Site(locs, 1))
  {
    PairSplit(locs, bs, plan);
    PairCost(locs, plan);
    assert plan[0] == [0] + Tail(plan[0]) && plan[1] == [0] + Tail(plan[1]);
    RouteCostWalk(locs, 0, Tail(plan[0]));
    RouteCostWalk(locs, 0, Tail(plan[1]));
  }

  /**
   * The dispatch of two firefighters from the station at building 0 to the
   * fires at its two neighbours 1 and 2, in any city where those are 1 away
   * from the station and 2 apart: the odometers total 2, a firefighter
   * stands at each fire, and neither building burns afterwards.
   */
  method DispatchNeighbours(locs: seq<Loc>, fires: seq<bool>, nodes: seq<Option<nat>>)
    returns (total: int, atFireOne: bool, atFireTwo: bool, burning: bool)
    requires NeighbourGaps(locs) && |locs| == 4 && |fires| == 4 && InCity(nodes, 4)
    requires BothNeighbours(Filter(nodes, fires)) && Distinct(Filter(nodes, fires))
    ensures total == 2 && atFireOne && atFireTwo && !burning
  {
    var plan, after, d0, d1, l0, l1 := DispatchPair(locs, 0, fires, nodes);
    assert Site(locs, 0) == locs[0];
    PairWalks(locs, Filter(nodes, fires), plan);
    ClearedAt(fires, Filter(nodes, fires), 1);
    ClearedAt(fires, Filter(nodes, fires), 2);
    total := d0 + d1;
    atFireOne := l0 == locs[1] || l1 == locs[1];
    atFireTwo := l0 == locs[2] || l1 == locs[2];
    burning := after[1] || after[2];
  }

  /** The reports of (0,1) and (1,0), both burning, pass the filter unchanged. */
  lemma NeighbourReports(nodes: seq<Option<nat>>, fires: seq<bool>)
    requires nodes == [Some(1), Some(2)] && fires == [false, true, true, false]
    ensures InCity(nodes, 4) && BothNeighbours(Filter(nodes, fires)) && Distinct(Filter(nodes, fires))
  {
    assert Filter(nodes, fires) == [1, 2];
    assert multiset([1, 2]) == multiset{1, 2};
  }

  /**
   * doubleFirefighterDoubleFire: two firefighters and fires at (0,1) and
   * (1,0) travel 2 in all, each fire has a firefighter standing at it, and
   * neither building burns afterwards.
   */
  method DoubleFirefighterDoubleFire() returns (total: int, atFireOne: bool, atFireTwo: bool, burning: bool)
    ensures total == 2 && atFireOne && atFireTwo && !burning
  {
    var fires := [false, true, true, false];
    var nodes := [Some(1), Some(2)];
    NeighbourReports(nodes, fires);
    SquareGaps();
    total, atFireOne, atFireTwo, burning := DispatchNeighbours(Square(), fires, nodes);
  }
}
