/**
 * The fire dispatcher: it filters the reported nodes down to burning
 * buildings, finds by exhaustive branch-and-bound search the assignment of
 * buildings to firefighters with the least total travel, and then sends each
 * firefighter along its route, putting out the fires.
 */
module Dispatch {
  import opened Wrappers
  import opened Cities
  import opened Firefighters
  import opened Plans
  import opened SearchFacts
  import opened Fires

  /** Every reported node that is not null names a building of the city. */
  ghost predicate InCity(nodes: seq<Option<nat>>, size: nat)
  {
    forall i :: 0 <= i < |nodes| && nodes[i].Some? ==> nodes[i].value < size
  }

  /** The non-null reported buildings that are burning, in the order reported. */
  function Filter(nodes: seq<Option<nat>>, fires: seq<bool>): (bs: seq<nat>)
    requires InCity(nodes, |fires|)
    ensures forall k :: 0 <= k < |bs| ==> bs[k] < |fires| && fires[bs[k]]
    ensures |bs| <= |nodes|
  {
    if nodes == [] then []
    else
      var rest := Filter(nodes[1..], fires);
      match nodes[0]
      case None => rest
      case Some(b) => if fires[b] then [b] + rest else rest
  }

  /**
   * A burning building occurs in the filtered list as often as it was
   * reported; a building that is not burning does not occur at all.
   */
  lemma {:induction false} FilterCount(nodes: seq<Option<nat>>, fires: seq<bool>, b: nat)
    requires InCity(nodes, |fires|) && b < |fires|
    ensures multiset(Filter(nodes, fires))[b] == if fires[b] then multiset(nodes)[Some(b)] else 0
  {
    if nodes != [] {
      var rest := nodes[1..];
      assert nodes == [nodes[0]] + rest;
      assert multiset(nodes)[Some(b)] == multiset([nodes[0]])[Some(b)] + multiset(rest)[Some(b)];
      FilterCount(rest, fires, b);
      var tail := Filter(rest, fires);
      match nodes[0]
      case None =>
        assert Filter(nodes, fires) == tail;
      case Some(c) =>
        if fires[c] {
          assert Filter(nodes, fires) == [c] + tail;
          assert multiset([c] + tail)[b] == multiset([c])[b] + multiset(tail)[b];
        } else {
          assert Filter(nodes, fires) == tail;
        }
    }
  }

  /** The filter keeps exactly the reported buildings that are burning. */
  lemma FilterMembers(nodes: seq<Option<nat>>, fires: seq<bool>, b: nat)
    requires InCity(nodes, |fires|)
    ensures b in Filter(nodes, fires) <==> Some(b) in nodes && b < |fires| && fires[b]
  {
    if b < |fires| {
      FilterCount(nodes, fires, b);
    } else {
      assert forall k :: 0 <= k < |nodes| ==> nodes[k] != Some(b);
    }
  }

  /** Filtering a concatenation filters each part, keeping the order. */
  lemma {:induction false} FilterAppend(a: seq<Option<nat>>, b: seq<Option<nat>>, fires: seq<bool>)
    requires InCity(a, |fires|) && InCity(b, |fires|)
    ensures InCity(a + b, |fires|)
    ensures Filter(a + b, fires) == Filter(a, fires) + Filter(b, fires)
  {
    assert InCity(a + b, |fires|) by {
      forall i | 0 <= i < |a + b| && (a + b)[i].Some? ensures (a + b)[i].value < |fires| {
        if i >= |a| {
          assert (a + b)[i] == b[i - |a|];
        }
      }
    }
    if a != [] {
      assert (a + b)[1..] == a[1..] + b;
      FilterAppend(a[1..], b, fires);
    } else {
      assert a + b == b;
    }
  }

  /**
   * What the finished search tells about its result: no plan was recorded
   * exactly when the filtered list repeats a building (the search never
   * places a building twice, so no assignment becomes complete), or there
   * are buildings but no firefighters; a recorded plan costs no more than
   * any complete plan.
   */
  lemma SearchSettles(best: Option<int>, visited: Option<Plan>, locs: seq<Loc>, station: nat, bs: seq<nat>, n: nat)
    requires Recorded(best, visited, locs, station, bs, n)
    requires Bounded(best, locs, station, bs, Initial(n, station))
    ensures visited.None? <==> !Distinct(bs) || (n == 0 && bs != [])
    ensures visited.Some? ==> Optimal(best.value, locs, station, bs, n)
  {
    if Distinct(bs) {
      InitialBound(best, locs, station, bs, n);
      PlanExists(locs, station, bs, n, best);
    }
    if visited.Some? && n == 0 {
      NoRoutes(station, bs, visited.value);
    }
  }

  /** With distinct buildings and a firefighter (or nothing to do), every bound on complete plans is a cost. */
  lemma PlanExists(locs: seq<Loc>, station: nat, bs: seq<nat>, n: nat, best: Option<int>)
    requires forall p :: CompletePlan(station, bs, n, p) ==> AtMost(best, PlanCost(locs, p))
    ensures n >= 1 || bs == [] ==> best.Some?
  {
    if n >= 1 {
      OneRoutePlan(station, bs, n);
      assert AtMost(best, PlanCost(locs, [[station] + bs] + Initial(n - 1, station)));
    } else if bs == [] {
      assert CompletePlan(station, bs, n, Initial(n, station));
    }
  }

  /** Without firefighters, only the empty list of buildings has a complete plan. */
  lemma NoRoutes(station: nat, bs: seq<nat>, p: Plan)
    requires CompletePlan(station, bs, 0, p)
    ensures bs == []
  {
    assert p == [];
    assert multiset(bs) == multiset(Stops([]));
  }

  /**
   * A complete plan for burning filtered buildings can be committed: its
   * stops lie in the city, all burn in turn, and putting them out clears
   * exactly the filtered buildings.
   */
  lemma CommitReady(station: nat, bs: seq<nat>, n: nat, p: Plan, fires: seq<bool>)
    requires Distinct(bs) && CompletePlan(station, bs, n, p)
    requires forall k :: 0 <= k < |bs| ==> bs[k] < |fires| && fires[bs[k]]
    ensures forall f, k :: 0 <= f < |p| && 1 <= k < |p[f]| ==> p[f][k] < |fires|
    ensures AllBurning(Stops(p), fires)
    ensures Cleared(fires, Stops(p)) == Cleared(fires, bs)
  {
    var s := Stops(p);
    assert forall x :: x in bs ==> x < |fires| && fires[x];
    assert forall x :: x in s <==> x in bs by {
      forall x ensures x in s <==> x in bs {
        assert x in s <==> x in multiset(s);
        assert x in bs <==> x in multiset(bs);
      }
    }
    forall f, k | 0 <= f < |p| && 1 <= k < |p[f]| ensures p[f][k] < |fires| {
      StopAt(p, f, k);
    }
    forall k | 0 <= k < |s| ensures s[k] < |fires| {
      assert s[k] in s;
    }
    assert Distinct(s);
    AllBurningDistinct(s, fires);
    ClearedSame(fires, s, bs);
  }

  /**
   * Firefighters who all start at the station and walk the routes of a plan
   * travel, together, exactly the plan's cost.
   */
  lemma WalkedPlanCost(locs: seq<Loc>, station: nat, p: Plan, after: seq<int>, before: seq<int>)
    requires Seeded(station, p) && |after| == |before| == |p|
    requires forall f :: 0 <= f < |p| ==> after[f] == before[f] + PathLength(Site(locs, station), SitesOf(locs, Tail(p[f])))
    ensures Sum(after) == Sum(before) + PlanCost(locs, p)
  {
    forall f | 0 <= f < |p| ensures after[f] == before[f] + RouteCost(locs, p[f]) {
      RouteCostWalk(locs, station, Tail(p[f]));
      assert p[f] == [station] + Tail(p[f]);
    }
    SumDeltas(locs, after, before, p);
  }

  /**
   * One firefighter's share of the commit, on the ledger of buildings put
   * out so far: `done` holds the stops of the routes before position `f`.
   * Walking route `f` next extends the ledger by its stops, and a stop found
   * not burning there means the plan as a whole does not visit burning
   * buildings only.
   */
  lemma CommitStep(p: Plan, f: nat, fires: seq<bool>, done: seq<nat>, before: seq<bool>, after: seq<bool>, ok: bool)
    requires f < |p| && done == Stops(p[..f]) && AllBurning(done, fires) && before == Cleared(fires, done)
    requires ok <==> AllBurning(Tail(p[f]), before)
    requires ok ==> after == Cleared(before, Tail(p[f]))
    ensures !ok ==> !AllBurning(Stops(p), fires)
    ensures ok ==> Stops(p[..f + 1]) == done + Tail(p[f]) && AllBurning(done + Tail(p[f]), fires)
    ensures ok ==> after == Cleared(fires, done + Tail(p[f]))
  {
    StopsTake(p, f);
    StopsTakePrefix(p, f + 1);
    VisitAppend(fires, done, Tail(p[f]));
    AllBurningPrefix(Stops(p), |done + Tail(p[f])|, fires);
  }

  /**
   * With no burning building reported, every complete plan keeps each
   * firefighter at the station: it costs nothing, and a firefighter who
   * walks its route neither moves nor adds to its odometer.
   */
  lemma NothingToDispatch(locs: seq<Loc>, station: nat, n: nat, p: Plan, f: nat, start: Loc)
    requires CompletePlan(station, [], n, p) && f < n
    ensures p[f] == [station] && PlanCost(locs, p) == 0
    ensures EndOf(start, SitesOf(locs, Tail(p[f]))) == start
    ensures PathLength(start, SitesOf(locs, Tail(p[f]))) == 0
  {
    assert |Stops(p)| == |multiset(Stops(p))| == 0;
    NoStops(locs, station, p);
    assert Tail(p[f]) == [];
  }

  /** What one call of DispatchFirefighters did. */
  datatype Outcome =
    | Dispatched(plan: Plan, cost: nat) // the committed optimal plan and its total length
    | NullRoster                        // no firefighters were ever set: NullPointerException
    | NullRoutes                        // the search recorded no plan: NullPointerException at commit
    | InvalidScenario                   // a stop was found not burning at commit

  /** The best plan found so far: `None` cost stands for Integer.MAX_VALUE, `None` routes for null. */
  class Result {
    var cost: Option<int>
    var visited: Option<Plan>

    constructor (cost: Option<int>, visited: Option<Plan>)
      ensures this.cost == cost && this.visited == visited
    {
      this.cost := cost;
      this.visited := visited;
    }
  }

  /** Where the firefighters of a roster stand. */
  ghost function Locations(ffs: seq<Firefighter>): (l: seq<Loc>)
    reads ffs
    ensures |l| == |ffs| && forall k :: 0 <= k < |ffs| ==> l[k] == ffs[k].location
  {
    seq(|ffs|, k reads ffs requires 0 <= k < |ffs| => ffs[k].location)
  }

  /** Odometer readings of a roster. */
  ghost function Distances(ffs: seq<Firefighter>): (d: seq<int>)
    reads ffs
    ensures |d| == |ffs| && forall k :: 0 <= k < |ffs| ==> d[k] == ffs[k].distance
  {
    seq(|ffs|, k reads ffs requires 0 <= k < |ffs| => ffs[k].distance)
  }

  class FireDispatch {
    const city: City
    var firefighters: Option<seq<Firefighter>>

    ghost predicate Valid()
      reads this
    {
      city.Valid() &&
      (firefighters.Some? ==>
        forall f, g :: 0 <= f < g < |firefighters.value| ==> firefighters.value[f] != firefighters.value[g])
    }

    /** The current roster, or nothing before setFirefighters. */
    function Roster(): seq<Firefighter>
      reads this
    {
      if firefighters.Some? then firefighters.value else []
    }

    constructor (city: City)
      requires city.Valid()
      ensures Valid() && this.city == city && firefighters.None?
    {
      this.city := city;
      firefighters := None;
    }

    /** Replaces the roster by `n` new firefighters standing at the fire station. */
    method SetFirefighters(n: nat)
      requires Valid()
      modifies this
      ensures Valid() && firefighters.Some? && |firefighters.value| == n
      ensures forall f :: 0 <= f < n ==>
                fresh(firefighters.value[f]) &&
                firefighters.value[f].location == city.locs[city.station] &&
                firefighters.value[f].distance == 0
    {
      var start := city.locs[city.station];
      var roster: seq<Firefighter> := [];
      for i := 0 to n
        invariant |roster| == i
        invariant forall f :: 0 <= f < i ==> fresh(roster[f]) && roster[f].location == start && roster[f].distance == 0
        invariant forall f, g :: 0 <= f < g < i ==> roster[f] != roster[g]
      {
        var firefighter := new Firefighter.At(start);
        roster := roster + [firefighter];
      }
      firefighters := Some(roster);
    }

    /**
     * Dispatches the roster to the reported burning buildings. The reported
     * nodes are filtered (nulls dropped, buildings not burning dropped), the
     * search finds the cheapest assignment of the remaining buildings to
     * routes, and the firefighters walk that assignment, putting the fires
     * out.
     */
    method DispatchFirefighters(nodes: seq<Option<nat>>) returns (outcome: Outcome)
      requires Valid() && InCity(nodes, |city.locs|)
      modifies city.burning, Roster()
      ensures outcome != InvalidScenario
      ensures outcome == NullRoster <==> firefighters.None?
      ensures outcome == NullRoutes <==>
                firefighters.Some? &&
                (!Distinct(Filter(nodes, old(city.burning[..]))) || (|Roster()| == 0 && Filter(nodes, old(city.burning[..])) != []))
      ensures !outcome.Dispatched? ==>
                city.burning[..] == old(city.burning[..]) &&
                forall f :: 0 <= f < |Roster()| ==>
                  Roster()[f].location == old(Roster()[f].location) && Roster()[f].distance == old(Roster()[f].distance)
      ensures outcome.Dispatched? ==>
                var bs := Filter(nodes, old(city.burning[..]));
                CompletePlan(city.station, bs, |Roster()|, outcome.plan) &&
                outcome.cost == PlanCost(city.locs, outcome.plan) &&
                Optimal(outcome.cost, city.locs, city.station, bs, |Roster()|) &&
                city.burning[..] == Cleared(old(city.burning[..]), bs)
      ensures outcome.Dispatched? ==> forall f :: 0 <= f < |Roster()| ==>
                Walked(Roster()[f], old(Locations(Roster()))[f], old(Distances(Roster()))[f], outcome.plan[f])
      ensures outcome.Dispatched? && (forall f :: 0 <= f < |Roster()| ==> old(Locations(Roster()))[f] == city.locs[city.station]) ==>
                Sum(Distances(Roster())) == Sum(old(Distances(Roster()))) + outcome.cost
    {
      var bs := Filter(nodes, city.burning[..]);
      if firefighters.None? {
        return NullRoster;
      }
      var ffs := firefighters.value;
      ghost var starts, odometers := Locations(ffs), Distances(ffs);
      var cost, visited := FindBestPlan(bs);
      assert Roster() == ffs;
      assert Locations(ffs) == starts && Distances(ffs) == odometers;
      if visited.None? {
        return NullRoutes;
      }
      var plan := visited.value;
      CommitReady(city.station, bs, |ffs|, plan, city.burning[..]);
      ghost var fires1 := city.burning[..];
      var ok := DispatchFirefightersToRoute(plan);
      assert Roster() == ffs;
      assert city.burning[..] == Cleared(fires1, bs);
      outcome := Dispatched(plan, cost.value);
    }

    /**
     * The set-up and the search: one route per firefighter, each holding
     * just the station, the best cost standing at Integer.MAX_VALUE
     * (`None`) and no plan. The search leaves the fires as they were; it
     * records a plan exactly when the list repeats no building and there is
     * a firefighter or nothing to place, and the plan it records is complete
     * and no costlier than any other.
     */
    method FindBestPlan(bs: seq<nat>) returns (cost: Option<int>, visited: Option<Plan>)
      requires Valid() && firefighters.Some?
      requires forall k :: 0 <= k < |bs| ==> bs[k] < city.burning.Length && city.burning[bs[k]]
      modifies city.burning
      ensures city.burning[..] == old(city.burning[..])
      ensures Recorded(cost, visited, city.locs, city.station, bs, |Roster()|)
      ensures visited.None? <==> !Distinct(bs) || (|Roster()| == 0 && bs != [])
      ensures visited.Some? ==> Optimal(cost.value, city.locs, city.station, bs, |Roster()|)
    {
      var result := new Result(None, None);
      var routes := new Route[|firefighters.value|](_ => [city.station]);
      assert routes[..] == Initial(routes.Length, city.station);
      InitialNode(city.station, bs, routes.Length, city.burning[..]);
      NoStops(city.locs, city.station, routes[..]);
      MinDistanceTraveled(bs, routes, 0, 0, result, []);
      SearchSettles(result.cost, result.visited, city.locs, city.station, bs, routes.Length);
      cost, visited := result.cost, result.visited;
    }

    /** Records a strictly cheaper complete plan: its cost and a copy of the routes. */
    method UpdateResult(result: Result, cost: int, routes: array<Route>)
      modifies result
      ensures result.cost == Some(cost) && result.visited == Some(routes[..])
    {
      result.cost := Some(cost);
      result.visited := Some(routes[..]);
    }

    /**
     * The branch-and-bound search. At a node where `count` of the filtered
     * buildings `bs` are placed, it tries, building by building and then
     * firefighter by firefighter, each burning building as the next stop of
     * each route, descends while the partial cost stays below the best, and
     * undoes every step. On return all state is as on entry, the recorded
     * result is no worse (and untouched if not strictly better), and it bounds
     * the cost of every complete plan that continues the entry routes.
     */
    method MinDistanceTraveled(bs: seq<nat>, routes: array<Route>, pathCost: int, count: nat, result: Result, ghost placed: seq<nat>)
      requires city.Valid()
      requires Node(city.station, bs, routes[..], city.burning[..], placed)
      requires count == |placed| && count <= |bs|
      requires pathCost == PlanCost(city.locs, routes[..])
      requires Recorded(result.cost, result.visited, city.locs, city.station, bs, routes.Length)
      modifies routes, city.burning, result
      ensures routes[..] == old(routes[..]) && city.burning[..] == old(city.burning[..])
      ensures Recorded(result.cost, result.visited, city.locs, city.station, bs, routes.Length)
      ensures NoWorse(result.cost, old(result.cost))
      ensures result.cost == old(result.cost) ==> result.visited == old(result.visited)
      ensures Bounded(result.cost, city.locs, city.station, bs, old(routes[..]))
      decreases |bs| - count, 2
    {
      if count == |bs| {
        BaseRecord(city.station, bs, routes[..], city.burning[..], placed);
        if Improves(pathCost, result.cost) {
          UpdateResult(result, pathCost, routes);
        }
        BaseBound(result.cost, city.locs, city.station, bs, routes[..]);
        return;
      }
      ghost var r0, fires0 := routes[..], city.burning[..];
      StartBound(result.cost, city.locs, city.station, bs, r0);
      for i := 0 to |bs|
        invariant routes[..] == r0 && city.burning[..] == fires0
        invariant Recorded(result.cost, result.visited, city.locs, city.station, bs, routes.Length)
        invariant NoWorse(result.cost, old(result.cost))
        invariant result.cost == old(result.cost) ==> result.visited == old(result.visited)
        invariant BoundedUpTo(result.cost, city.locs, city.station, bs, r0, i, 0)
      {
        ghost var before := result.cost;
        TryBuilding(bs, routes, pathCost, count, result, placed, i);
        NoWorseChain(result.cost, before, old(result.cost));
      }
      ExhaustedBound(result.cost, city.locs, city.station, bs, r0, fires0, placed);
    }

    /**
     * One turn of the loop over buildings: a building that is not burning is
     * skipped (it is on the current branch already); a burning one is tried
     * as the next stop of each route in turn.
     */
    method TryBuilding(bs: seq<nat>, routes: array<Route>, pathCost: int, count: nat, result: Result, ghost placed: seq<nat>, i: nat)
      requires city.Valid()
      requires Node(city.station, bs, routes[..], city.burning[..], placed)
      requires count == |placed| && count < |bs|
      requires pathCost == PlanCost(city.locs, routes[..])
      requires Recorded(result.cost, result.visited, city.locs, city.station, bs, routes.Length)
      requires i < |bs|
      requires BoundedUpTo(result.cost, city.locs, city.station, bs, routes[..], i, 0)
      modifies routes, city.burning, result
      ensures routes[..] == old(routes[..]) && city.burning[..] == old(city.burning[..])
      ensures Recorded(result.cost, result.visited, city.locs, city.station, bs, routes.Length)
      ensures NoWorse(result.cost, old(result.cost))
      ensures result.cost == old(result.cost) ==> result.visited == old(result.visited)
      ensures BoundedUpTo(result.cost, city.locs, city.station, bs, old(routes[..]), i + 1, 0)
      decreases |bs| - count, 1
    {
      ghost var r0 := routes[..];
      var building := bs[i];
      if !city.burning[building] {
        SkipBound(result.cost, city.locs, city.station, bs, r0, city.burning[..], placed, i);
        return;
      }
      for j := 0 to routes.Length
        invariant routes[..] == r0 && city.burning[..] == old(city.burning[..])
        invariant Recorded(result.cost, result.visited, city.locs, city.station, bs, routes.Length)
        invariant NoWorse(result.cost, old(result.cost))
        invariant result.cost == old(result.cost) ==> result.visited == old(result.visited)
        invariant BoundedUpTo(result.cost, city.locs, city.station, bs, r0, i, j)
      {
        ghost var before := result.cost;
        Descend(city.locs, city.station, bs, r0, city.burning[..], placed, i, j);
        Step(bs, routes, pathCost, count, result, placed, i, j);
        NoWorseChain(result.cost, before, old(result.cost));
        StepBound(before, result.cost, city.locs, city.station, bs, r0, i, j);
      }
      RowBound(result.cost, city.locs, city.station, bs, r0, i);
    }

    /**
     * One branch: appends burning `bs[i]` to route `j`, puts its fire out,
     * adds the leg from the route's last building to the partial cost,
     * descends only if that cost is still below the best, and then undoes
     * the fire and the route.
     */
    method Step(bs: seq<nat>, routes: array<Route>, pathCost: int, count: nat, result: Result, ghost placed: seq<nat>, i: nat, j: nat)
      requires city.Valid()
      requires Node(city.station, bs, routes[..], city.burning[..], placed)
      requires count == |placed| && count < |bs|
      requires pathCost == PlanCost(city.locs, routes[..])
      requires Recorded(result.cost, result.visited, city.locs, city.station, bs, routes.Length)
      requires i < |bs| && city.burning[bs[i]] && j < routes.Length
      modifies routes, city.burning, result
      ensures routes[..] == old(routes[..]) && city.burning[..] == old(city.burning[..])
      ensures Recorded(result.cost, result.visited, city.locs, city.station, bs, routes.Length)
      ensures NoWorse(result.cost, old(result.cost))
      ensures result.cost == old(result.cost) ==> result.visited == old(result.visited)
      ensures Bounded(result.cost, city.locs, city.station, bs, old(routes[..])[j := old(routes[j]) + [bs[i]]])
           || AtMost(result.cost, PlanCost(city.locs, old(routes[..])[j := old(routes[j]) + [bs[i]]]))
      decreases |bs| - count, 0
    {
      ghost var r0, fires0 := routes[..], city.burning[..];
      Descend(city.locs, city.station, bs, r0, fires0, placed, i, j);
      var building := bs[i];
      var buildingsVisited := routes[j];
      var currLocation := buildingsVisited[|buildingsVisited| - 1];
      routes[j] := buildingsVisited + [building];
      var _ := city.ExtinguishFire(building);
      ghost var r1 := r0[j := r0[j] + [building]];
      assert routes[..] == r1;
      var running := pathCost + Leg(city.locs, currLocation, building);
      if Improves(running, result.cost) {
        MinDistanceTraveled(bs, routes, running, count + 1, result, placed + [building]);
      } else {
        ImprovesAtMost(running, result.cost);
      }
      city.SetFire(building);
      routes[j] := routes[j][..|routes[j]| - 1];
      assert routes[..] == r1[j := r1[j][..|r0[j]|]];
    }

    /**
     * Firefighter `ff`, who stood at `start` with odometer `odometer`, has
     * walked through the stops of `route` after the station: it stands at the
     * last of them and its odometer grew by the length of the walk.
     */
    ghost predicate Walked(ff: Firefighter, start: Loc, odometer: int, route: Route)
      reads ff
    {
      ff.location == EndOf(start, SitesOf(city.locs, Tail(route))) &&
      ff.distance == odometer + PathLength(start, SitesOf(city.locs, Tail(route)))
    }

    /**
     * Sends every firefighter of the roster along its route of `plan`
     * (position `f` of the plan belongs to firefighter `f`), skipping the
     * station at the head of each route. `ok` is false when some stop is
     * found not burning, which the source reports by throwing
     * InvalidScenarioException; that happens exactly when the stops repeat a
     * building or name one that was not burning.
     */
    method DispatchFirefightersToRoute(plan: Plan) returns (ok: bool)
      requires Valid() && |plan| == |Roster()|
      requires Seeded(city.station, plan)
      requires forall f, k :: 0 <= f < |plan| && 1 <= k < |plan[f]| ==> plan[f][k] < |city.locs|
      modifies city.burning, Roster()
      ensures firefighters == old(firefighters)
      ensures ok <==> AllBurning(Stops(plan), old(city.burning[..]))
      ensures ok ==> city.burning[..] == Cleared(old(city.burning[..]), Stops(plan))
      ensures ok ==> forall f :: 0 <= f < |plan| ==>
                Walked(Roster()[f], old(Locations(Roster()))[f], old(Distances(Roster()))[f], plan[f])
      ensures ok && (forall f :: 0 <= f < |plan| ==> old(Locations(Roster()))[f] == city.locs[city.station]) ==>
                Sum(Distances(Roster())) == Sum(old(Distances(Roster()))) + PlanCost(city.locs, plan)
    {
      var ffs := Roster();
      ghost var fires0 := city.burning[..];
      ghost var starts, odometers := Locations(ffs), Distances(ffs);
      ghost var done: seq<nat> := [];
      ClearedNone(fires0);
      for f := 0 to |ffs|
        invariant done == Stops(plan[..f])
        invariant AllBurning(done, fires0)
        invariant city.burning[..] == Cleared(fires0, done)
        invariant forall g :: 0 <= g < f ==> Walked(ffs[g], starts[g], odometers[g], plan[g])
        invariant forall g :: f <= g < |ffs| ==> ffs[g].location == starts[g] && ffs[g].distance == odometers[g]
      {
        ok := DispatchMember(ffs, plan, f, fires0, done, starts, odometers);
        if !ok {
          return;
        }
        done := done + Tail(plan[f]);
      }
      assert plan[..|ffs|] == plan;
      ok := true;
      if forall g :: 0 <= g < |ffs| ==> starts[g] == city.locs[city.station] {
        WalkedPlanCost(city.locs, city.station, plan, Distances(ffs), odometers);
      }
    }

    /**
     * The commit of the firefighter at position `f` of the roster, with the
     * ledger `done` of the stops of the earlier routes: walks route `f`,
     * leaving every other firefighter where it was.
     */
    method DispatchMember(ffs: seq<Firefighter>, plan: Plan, f: nat, ghost fires0: seq<bool>,
                          ghost done: seq<nat>, ghost starts: seq<Loc>, ghost odometers: seq<int>)
      returns (ok: bool)
      requires city.Valid() && |plan| == |ffs| == |starts| == |odometers| && f < |ffs|
      requires forall g, h :: 0 <= g < h < |ffs| ==> ffs[g] != ffs[h]
      requires |plan[f]| >= 1 && forall k :: 1 <= k < |plan[f]| ==> plan[f][k] < |city.locs|
      requires done == Stops(plan[..f]) && AllBurning(done, fires0) && city.burning[..] == Cleared(fires0, done)
      requires forall g :: 0 <= g < f ==> Walked(ffs[g], starts[g], odometers[g], plan[g])
      requires forall g :: f <= g < |ffs| ==> ffs[g].location == starts[g] && ffs[g].distance == odometers[g]
      modifies ffs[f], city.burning
      ensures !ok ==> !AllBurning(Stops(plan), fires0)
      ensures ok ==> Stops(plan[..f + 1]) == done + Tail(plan[f]) && AllBurning(done + Tail(plan[f]), fires0)
      ensures ok ==> city.burning[..] == Cleared(fires0, done + Tail(plan[f]))
      ensures ok ==> forall g :: 0 <= g < f + 1 ==> Walked(ffs[g], starts[g], odometers[g], plan[g])
      ensures ok ==> forall g :: f + 1 <= g < |ffs| ==> ffs[g].location == starts[g] && ffs[g].distance == odometers[g]
    {
      ghost var before := city.burning[..];
      ok := DispatchRoute(ffs[f], plan[f]);
      CommitStep(plan, f, fires0, done, before, city.burning[..], ok);
      if ok {
        forall g | 0 <= g < f ensures Walked(ffs[g], starts[g], odometers[g], plan[g]) {
          assert ffs[g] != ffs[f];
        }
        forall g | f + 1 <= g < |ffs| ensures ffs[g].location == starts[g] && ffs[g].distance == odometers[g] {
          assert ffs[f] != ffs[g];
        }
      }
    }

    /**
     * One firefighter's part of the commit: travels to each stop after the
     * station in turn and puts its fire out, stopping (with `ok` false) at
     * the first stop that is not burning when reached.
     */
    method DispatchRoute(firefighter: Firefighter, route: Route) returns (ok: bool)
      requires city.Valid() && |route| >= 1
      requires forall k :: 1 <= k < |route| ==> route[k] < |city.locs|
      modifies firefighter, city.burning
      ensures ok <==> AllBurning(Tail(route), old(city.burning[..]))
      ensures ok ==> city.burning[..] == Cleared(old(city.burning[..]), Tail(route))
      ensures ok ==> Walked(firefighter, old(firefighter.location), old(firefighter.distance), route)
    {
      ghost var fires0, start, odometer := city.burning[..], firefighter.location, firefighter.distance;
      ghost var reached: seq<nat> := [];
      ClearedNone(fires0);
      for k := 1 to |route|
        invariant reached == Tail(route)[..k - 1]
        invariant AllBurning(reached, fires0)
        invariant city.burning[..] == Cleared(fires0, reached)
        invariant firefighter.location == EndOf(start, SitesOf(city.locs, reached))
        invariant firefighter.distance == odometer + PathLength(start, SitesOf(city.locs, reached))
      {
        var building := route[k];
        assert Tail(route)[..k] == reached + [building];
        WalkStep(city.locs, start, reached, building);
        VisitStep(fires0, reached, building);
        firefighter.TravelTo(Some(city.locs[building]));
        ok := city.ExtinguishFire(building);
        if !ok {
          AllBurningPrefix(Tail(route), k, fires0);
          return;
        }
        reached := reached + [building];
      }
      assert reached == Tail(route);
      ok := true;
    }
  }
}
