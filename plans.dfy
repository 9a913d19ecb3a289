/**
 * Routes and plans as values. A route is the list of buildings one firefighter
 * visits, seeded with the fire station; a plan holds one route per firefighter.
 */
module Plans {
  import opened Wrappers
  import opened Cities
  import opened Firefighters

  type Route = seq<nat>
  type Plan = seq<Route>

  /** Location of building `b` (the origin for an index outside the city; no route holds one). */
  function Site(locs: seq<Loc>, b: nat): Loc
  {
    if b < |locs| then locs[b] else Loc(0, 0)
  }

  /** Manhattan leg between two buildings. */
  function Leg(locs: seq<Loc>, a: nat, b: nat): nat
  {
    Manhattan(Site(locs, a), Site(locs, b))
  }

  /** Sum of the legs between consecutive buildings of a route. */
  function RouteCost(locs: seq<Loc>, r: Route): nat
    decreases |r|
  {
    if |r| <= 1 then 0
    else RouteCost(locs, r[..|r| - 1]) + Leg(locs, r[|r| - 2], r[|r| - 1])
  }

  /** Sum of the route costs of all firefighters. */
  function PlanCost(locs: seq<Loc>, p: Plan): nat
  {
    if p == [] then 0 else RouteCost(locs, p[0]) + PlanCost(locs, p[1..])
  }

  /** A route without its seed element. */
  function Tail(r: Route): Route
  {
    if r == [] then [] else r[1..]
  }

  /** All buildings a plan visits: the route tails, one after another. */
  function Stops(p: Plan): seq<nat>
  {
    if p == [] then [] else Tail(p[0]) + Stops(p[1..])
  }

  /** No building occurs twice. */
  ghost predicate Distinct(s: seq<nat>)
  {
    forall x :: multiset(s)[x] <= 1
  }

  /** Every route is non-empty and starts with the fire station. */
  ghost predicate Seeded(station: nat, p: Plan)
  {
    forall f :: 0 <= f < |p| ==> |p[f]| >= 1 && p[f][0] == station
  }

  /**
   * An assignment of the buildings `bs` to `n` firefighters: each route starts
   * at the station and the route tails hold every building of `bs` as often as
   * `bs` does.
   */
  ghost predicate CompletePlan(station: nat, bs: seq<nat>, n: nat, p: Plan)
  {
    |p| == n && Seeded(station, p) && multiset(Stops(p)) == multiset(bs)
  }

  /** `p` continues every route of `r`. */
  ghost predicate Extends(p: Plan, r: Plan)
  {
    |p| == |r| && forall f :: 0 <= f < |r| ==> r[f] <= p[f]
  }

  /** The plan in which every one of `n` firefighters is still at the station. */
  function Initial(n: nat, station: nat): (r: Plan)
    ensures |r| == n && Seeded(station, r)
    ensures forall f :: 0 <= f < n ==> r[f] == [station]
    ensures Stops(r) == []
  {
    if n == 0 then [] else [[station]] + Initial(n - 1, station)
  }

  // ---- the sentinel order on recorded costs: None is "no plan yet" (Integer.MAX_VALUE) ----

  /** `cost` beats the best cost recorded so far. */
  predicate Improves(cost: int, best: Option<int>)
  {
    best.None? || cost < best.value
  }

  /** A cost has been recorded and it is at most `cost`. */
  predicate AtMost(best: Option<int>, cost: int)
  {
    best.Some? && best.value <= cost
  }

  /** `c1` is no worse than `c0`. */
  predicate NoWorse(c1: Option<int>, c0: Option<int>)
  {
    c0.None? || (c1.Some? && c1.value <= c0.value)
  }

  lemma ImprovesAtMost(cost: int, best: Option<int>)
    ensures !Improves(cost, best) <==> AtMost(best, cost)
  {
  }

  /** The order on recorded costs is transitive, and a chain that returns to its start is constant. */
  lemma NoWorseChain(c2: Option<int>, c1: Option<int>, c0: Option<int>)
    requires NoWorse(c2, c1) && NoWorse(c1, c0)
    ensures NoWorse(c2, c0)
    ensures c2 == c0 ==> c1 == c0
  {
  }

  // ---- costs ----

  /** Appending a building adds the leg from the route's last building. */
  lemma RouteCostSnoc(locs: seq<Loc>, r: Route, b: nat)
    requires |r| >= 1
    ensures RouteCost(locs, r + [b]) == RouteCost(locs, r) + Leg(locs, r[|r| - 1], b)
  {
    assert (r + [b])[..|r|] == r;
  }

  /** Legs are non-negative, so continuing a route never makes it cheaper. */
  lemma {:induction false} RouteCostPrefix(locs: seq<Loc>, r: Route, s: Route)
    requires r <= s
    ensures RouteCost(locs, r) <= RouteCost(locs, s)
    decreases |s|
  {
    if |r| < |s| {
      var s' := s[..|s| - 1];
      assert r <= s';
      RouteCostPrefix(locs, r, s');
    } else {
      assert r == s;
    }
  }

  /** Replacing one route changes the plan cost by the difference of the route costs. */
  lemma {:induction false} PlanCostUpdate(locs: seq<Loc>, p: Plan, f: nat, r: Route)
    requires f < |p|
    ensures PlanCost(locs, p[f := r]) == PlanCost(locs, p) - RouteCost(locs, p[f]) + RouteCost(locs, r)
  {
    if f > 0 {
      assert p[f := r][1..] == p[1..][f - 1 := r];
      PlanCostUpdate(locs, p[1..], f - 1, r);
    } else {
      assert p[f := r][1..] == p[1..];
    }
  }

  /** Appending a stop to one route adds the leg from that route's last building. */
  lemma PlanCostSnoc(locs: seq<Loc>, p: Plan, f: nat, b: nat)
    requires f < |p| && |p[f]| >= 1
    ensures PlanCost(locs, p[f := p[f] + [b]]) == PlanCost(locs, p) + Leg(locs, p[f][|p[f]| - 1], b)
  {
    RouteCostSnoc(locs, p[f], b);
    PlanCostUpdate(locs, p, f, p[f] + [b]);
  }

  /** A plan that continues `r` costs at least what `r` costs (pruning is sound). */
  lemma {:induction false} PlanCostExtends(locs: seq<Loc>, p: Plan, r: Plan)
    requires Extends(p, r)
    ensures PlanCost(locs, r) <= PlanCost(locs, p)
    decreases |r|
  {
    if r != [] {
      RouteCostPrefix(locs, r[0], p[0]);
      assert Extends(p[1..], r[1..]) by {
        forall f | 0 <= f < |r[1..]| ensures r[1..][f] <= p[1..][f] {
          assert r[1..][f] == r[f + 1];
        }
      }
      PlanCostExtends(locs, p[1..], r[1..]);
    }
  }

  /** A route from the station costs what a firefighter at the station travels along its tail. */
  lemma {:induction false} RouteCostWalk(locs: seq<Loc>, station: nat, tail: Route)
    ensures RouteCost(locs, [station] + tail) == PathLength(Site(locs, station), SitesOf(locs, tail))
    ensures EndOf(Site(locs, station), SitesOf(locs, tail)) == Site(locs, ([station] + tail)[|tail|])
    decreases |tail|
  {
    if tail != [] {
      var t' := tail[..|tail| - 1];
      var b := tail[|tail| - 1];
      RouteCostWalk(locs, station, t');
      assert [station] + tail == ([station] + t') + [b];
      RouteCostSnoc(locs, [station] + t', b);
      SitesOfSnoc(locs, t', b);
      assert tail == t' + [b];
      PathLengthSnoc(Site(locs, station), SitesOf(locs, t'), Site(locs, b));
    }
  }

  /** The locations of a list of buildings. */
  function SitesOf(locs: seq<Loc>, s: seq<nat>): (r: seq<Loc>)
    ensures |r| == |s| && forall k :: 0 <= k < |s| ==> r[k] == Site(locs, s[k])
  {
    seq(|s|, k requires 0 <= k < |s| => Site(locs, s[k]))
  }

  lemma SitesOfSnoc(locs: seq<Loc>, s: seq<nat>, b: nat)
    ensures SitesOf(locs, s + [b]) == SitesOf(locs, s) + [Site(locs, b)]
  {
  }

  // ---- stops ----

  lemma {:induction false} StopsAppend(p: Plan, q: Plan)
    ensures Stops(p + q) == Stops(p) + Stops(q)
  {
    if p != [] {
      assert (p + q)[1..] == p[1..] + q;
      StopsAppend(p[1..], q);
    } else {
      assert p + q == q;
    }
  }

  /** Appending `b` to route `f` adds exactly one `b` to the plan's stops. */
  lemma {:induction false} StopsSnoc(p: Plan, f: nat, b: nat)
    requires f < |p| && |p[f]| >= 1
    ensures multiset(Stops(p[f := p[f] + [b]])) == multiset(Stops(p)) + multiset{b}
  {
    if f > 0 {
      assert p[f := p[f] + [b]][1..] == p[1..][f - 1 := p[1..][f - 1] + [b]];
      StopsSnoc(p[1..], f - 1, b);
    } else {
      assert p[f := p[f] + [b]][1..] == p[1..];
      assert Tail(p[0] + [b]) == Tail(p[0]) + [b];
    }
  }

  /** A building beyond the seed of some route is one of the plan's stops. */
  lemma {:induction false} StopAt(p: Plan, f: nat, k: nat)
    requires f < |p| && 1 <= k < |p[f]|
    ensures p[f][k] in Stops(p)
  {
    if f > 0 {
      StopAt(p[1..], f - 1, k);
    } else {
      assert Tail(p[0])[k - 1] == p[0][k];
    }
  }

  /**
   * Continuing seeded routes only adds stops; a proper continuation adds at
   * least one.
   */
  lemma StopsExtends(p: Plan, r: Plan)
    requires Extends(p, r)
    requires forall f :: 0 <= f < |r| ==> |r[f]| >= 1
    ensures multiset(Stops(r)) <= multiset(Stops(p))
    ensures |Stops(r)| <= |Stops(p)|
    ensures p != r ==> |Stops(r)| < |Stops(p)|
  {
    StopsGrow(p, r);
    StopsLonger(p, r);
  }

  /** Walking on to building `b` ends there and adds the leg from the walk's old end. */
  lemma WalkStep(locs: seq<Loc>, start: Loc, s: seq<nat>, b: nat)
    ensures EndOf(start, SitesOf(locs, s + [b])) == Site(locs, b)
    ensures PathLength(start, SitesOf(locs, s + [b])) ==
            PathLength(start, SitesOf(locs, s)) + Manhattan(EndOf(start, SitesOf(locs, s)), Site(locs, b))
  {
    SitesOfSnoc(locs, s, b);
    PathLengthSnoc(start, SitesOf(locs, s), Site(locs, b));
  }

  /** The stops of the first `f + 1` routes: those of the first `f`, then the tail of route `f`. */
  lemma StopsTake(p: Plan, f: nat)
    requires f < |p|
    ensures Stops(p[..f + 1]) == Stops(p[..f]) + Tail(p[f])
  {
    assert p[..f + 1] == p[..f] + [p[f]];
    StopsAppend(p[..f], [p[f]]);
    assert Stops([p[f]]) == Tail(p[f]) + Stops([]);
  }

  /** The stops of the first routes come first among the stops of the plan. */
  lemma StopsTakePrefix(p: Plan, f: nat)
    requires f <= |p|
    ensures Stops(p[..f]) <= Stops(p)
    ensures Stops(p)[..|Stops(p[..f])|] == Stops(p[..f])
  {
    assert p == p[..f] + p[f..];
    StopsAppend(p[..f], p[f..]);
  }

  /** Continuing seeded routes keeps every stop. */
  lemma {:induction false} StopsGrow(p: Plan, r: Plan)
    requires Extends(p, r)
    requires forall f :: 0 <= f < |r| ==> |r[f]| >= 1
    ensures multiset(Stops(r)) <= multiset(Stops(p))
    decreases |r|
  {
    if r != [] {
      ExtendsRest(p, r);
      StopsGrow(p[1..], r[1..]);
      TailExtends(p[0], r[0]);
      StopsCons(p);
      StopsCons(r);
    }
  }

  /** Continuing seeded routes never shortens the stops, and a proper continuation lengthens them. */
  lemma {:induction false} StopsLonger(p: Plan, r: Plan)
    requires Extends(p, r)
    requires forall f :: 0 <= f < |r| ==> |r[f]| >= 1
    ensures |Stops(r)| <= |Stops(p)|
    ensures p != r ==> |Stops(r)| < |Stops(p)|
    decreases |r|
  {
    if r != [] {
      ExtendsRest(p, r);
      StopsLonger(p[1..], r[1..]);
      TailExtends(p[0], r[0]);
      StopsCons(p);
      StopsCons(r);
      if p[0] == r[0] && p[1..] == r[1..] {
        assert p == [p[0]] + p[1..] && r == [r[0]] + r[1..];
      }
    }
  }

  /** The stops of a non-empty plan: its first tail, then the stops of the rest. */
  lemma StopsCons(p: Plan)
    requires p != []
    ensures multiset(Stops(p)) == multiset(Tail(p[0])) + multiset(Stops(p[1..]))
    ensures |Stops(p)| == |Tail(p[0])| + |Stops(p[1..])|
  {
  }

  /** Dropping the first route of both plans keeps the extension. */
  lemma ExtendsRest(p: Plan, r: Plan)
    requires Extends(p, r) && r != []
    ensures Extends(p[1..], r[1..])
  {
    forall f | 0 <= f < |r[1..]| ensures r[1..][f] <= p[1..][f] {
      assert r[1..][f] == r[f + 1];
    }
  }

  /** Continuing a non-empty route only adds to its tail. */
  lemma TailExtends(t: Route, s: Route)
    requires s <= t && |s| >= 1
    ensures multiset(Tail(s)) <= multiset(Tail(t))
    ensures |Tail(s)| <= |Tail(t)|
    ensures s != t ==> |Tail(s)| < |Tail(t)|
  {
    assert Tail(t) == Tail(s) + Tail(t)[|Tail(s)|..];
  }

  /** Continuing route `f` of `r` by the next building `p` visits there keeps `p` an extension. */
  lemma NextStopExtends(p: Plan, r: Plan, f: nat)
    requires Extends(p, r) && f < |r| && |r[f]| < |p[f]|
    ensures Extends(p, r[f := r[f] + [p[f][|r[f]|]]])
  {
    assert r[f] + [p[f][|r[f]|]] == p[f][..|r[f]| + 1];
  }

  /** Every seeded plan of `n` routes continues the initial plan. */
  lemma InitialExtended(station: nat, p: Plan)
    requires Seeded(station, p)
    ensures Extends(p, Initial(|p|, station))
  {
    var r := Initial(|p|, station);
    forall f | 0 <= f < |p| ensures r[f] <= p[f] {
      assert r[f] == [station] == p[f][..1];
    }
  }

  /** Seeded routes with no stops are each just the station, and cost nothing. */
  lemma {:induction false} NoStops(locs: seq<Loc>, station: nat, p: Plan)
    requires Seeded(station, p) && Stops(p) == []
    ensures forall f :: 0 <= f < |p| ==> p[f] == [station]
    ensures PlanCost(locs, p) == 0
  {
    if p != [] {
      assert Seeded(station, p[1..]) by {
        forall f | 0 <= f < |p[1..]| ensures |p[1..][f]| >= 1 && p[1..][f][0] == station {
          assert p[1..][f] == p[f + 1];
        }
      }
      NoStops(locs, station, p[1..]);
      assert p[0] == [station];
      forall f | 0 <= f < |p| ensures p[f] == [station] {
        if f > 0 {
          assert p[f] == p[1..][f - 1];
        }
      }
    }
  }

  /** With at least one firefighter, giving every building to the first one is a complete plan. */
  lemma OneRoutePlan(station: nat, bs: seq<nat>, n: nat)
    requires n >= 1
    ensures CompletePlan(station, bs, n, [[station] + bs] + Initial(n - 1, station))
  {
    var p := [[station] + bs] + Initial(n - 1, station);
    assert p[1..] == Initial(n - 1, station);
    assert Tail([station] + bs) == bs;
    assert Stops(p) == bs;
    forall f | 0 <= f < n ensures |p[f]| >= 1 && p[f][0] == station {
      if f > 0 {
        assert p[f] == Initial(n - 1, station)[f - 1];
      }
    }
  }

  // ---- distinctness and counting ----

  /** One more element keeps a list distinct exactly when it is new. */
  lemma DistinctSnoc(s: seq<nat>, b: nat)
    ensures Distinct(s + [b]) <==> Distinct(s) && b !in s
  {
    assert multiset(s + [b]) == multiset(s) + multiset{b};
    assert b in s <==> b in multiset(s);
    assert multiset(s + [b])[b] == multiset(s)[b] + 1;
    if Distinct(s + [b]) {
      forall x ensures multiset(s)[x] <= 1 {
        assert multiset(s)[x] <= multiset(s + [b])[x];
      }
    }
    if Distinct(s) && b !in s {
      forall x ensures multiset(s + [b])[x] <= 1 {
        if x != b {
          assert multiset(s + [b])[x] == multiset(s)[x];
        }
      }
    }
  }

  /**
   * `placed` holds no building twice and only buildings of `bs`; if it is as
   * long as `bs`, both hold the same buildings and `bs` has no duplicates.
   */
  lemma FillMultiset(placed: seq<nat>, bs: seq<nat>)
    requires Distinct(placed)
    requires forall x :: x in placed ==> x in bs
    requires |placed| >= |bs|
    ensures multiset(placed) == multiset(bs) && Distinct(bs)
  {
    var a, b := multiset(placed), multiset(bs);
    assert a <= b by {
      forall x ensures a[x] <= b[x] {
        if x in placed {
          assert x in bs;
        }
      }
    }
    assert b == a + (b - a);
    assert |b - a| == 0;
    assert b - a == multiset{};
  }

  /** A sum of integers. */
  function Sum(s: seq<int>): int
  {
    if s == [] then 0 else s[0] + Sum(s[1..])
  }

  /** If each odometer grew by its route's cost, the total grew by the plan's cost. */
  lemma {:induction false} SumDeltas(locs: seq<Loc>, after: seq<int>, before: seq<int>, p: Plan)
    requires |after| == |before| == |p|
    requires forall f :: 0 <= f < |p| ==> after[f] == before[f] + RouteCost(locs, p[f])
    ensures Sum(after) == Sum(before) + PlanCost(locs, p)
  {
    if p != [] {
      SumDeltas(locs, after[1..], before[1..], p[1..]);
    }
  }
}
