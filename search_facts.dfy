/**
 * What the backtracking search keeps true at each node, stated over values:
 * the node's routes `r`, the burning flags `fires`, and the buildings `placed`
 * extinguished so far along the current branch (in order).
 */
module SearchFacts {
  import opened Wrappers
  import opened Cities
  import opened Plans

  /**
   * A search node: routes are seeded with the station, their tails hold
   * exactly the placed buildings, a filtered building is burning exactly when
   * it has not been placed, and nothing is placed twice.
   */
  ghost predicate Node(station: nat, bs: seq<nat>, r: Plan, fires: seq<bool>, placed: seq<nat>)
  {
    Seeded(station, r) &&
    (forall k :: 0 <= k < |bs| ==> bs[k] < |fires|) &&
    Distinct(placed) &&
    (forall x :: x in placed ==> x in bs) &&
    multiset(Stops(r)) == multiset(placed) &&
    (forall k :: 0 <= k < |bs| ==> (fires[bs[k]] <==> bs[k] !in placed))
  }

  /**
   * The recorded result: a cost exactly when a plan, and a recorded plan is a
   * complete assignment of `bs` whose cost is the recorded cost.
   */
  ghost predicate Recorded(cost: Option<int>, visited: Option<Plan>, locs: seq<Loc>, station: nat, bs: seq<nat>, n: nat)
  {
    (cost.Some? <==> visited.Some?) &&
    (visited.Some? ==>
      Distinct(bs) && CompletePlan(station, bs, n, visited.value) && cost.value == PlanCost(locs, visited.value))
  }

  /** `best` is at most the cost of every complete plan that continues `r`. */
  ghost predicate Bounded(best: Option<int>, locs: seq<Loc>, station: nat, bs: seq<nat>, r: Plan)
  {
    Distinct(bs) ==>
      forall p {:trigger Extends(p, r)} ::
        CompletePlan(station, bs, |r|, p) && Extends(p, r) ==> AtMost(best, PlanCost(locs, p))
  }

  /** `cost` is at most the cost of every complete assignment of `bs` to `n` routes. */
  ghost predicate Optimal(cost: int, locs: seq<Loc>, station: nat, bs: seq<nat>, n: nat)
  {
    forall p :: CompletePlan(station, bs, n, p) ==> cost <= PlanCost(locs, p)
  }

  /**
   * Plan `p` continues route `f` of `r` with a building the loops over
   * (building `bs[i']`, firefighter `f'`) have already tried: one of
   * `bs[..i]`, or `bs[i]` with a firefighter before `j`.
   */
  ghost predicate Tried(p: Plan, f: int, r: Plan, bs: seq<nat>, i: int, j: int)
  {
    0 <= f < |r| && |p| == |r| && |r[f]| < |p[f]| &&
    ((0 <= i <= |bs| && p[f][|r[f]|] in bs[..i]) || (0 <= i < |bs| && p[f][|r[f]|] == bs[i] && f < j))
  }

  /** `best` bounds every complete continuation of `r` whose next step has been tried. */
  ghost predicate BoundedUpTo(best: Option<int>, locs: seq<Loc>, station: nat, bs: seq<nat>, r: Plan, i: int, j: int)
  {
    Distinct(bs) ==>
      forall p, f {:trigger Tried(p, f, r, bs, i, j)} ::
        CompletePlan(station, bs, |r|, p) && Extends(p, r) && Tried(p, f, r, bs, i, j) ==>
        AtMost(best, PlanCost(locs, p))
  }

  /** The search starts with every route at the station, every filtered building burning. */
  lemma InitialNode(station: nat, bs: seq<nat>, n: nat, fires: seq<bool>)
    requires forall k :: 0 <= k < |bs| ==> bs[k] < |fires| && fires[bs[k]]
    ensures Node(station, bs, Initial(n, station), fires, [])
  {
  }

  /** A bound for the initial plan bounds every complete plan. */
  lemma InitialBound(best: Option<int>, locs: seq<Loc>, station: nat, bs: seq<nat>, n: nat)
    requires Distinct(bs)
    requires Bounded(best, locs, station, bs, Initial(n, station))
    ensures forall p :: CompletePlan(station, bs, n, p) ==> AtMost(best, PlanCost(locs, p))
  {
    forall p | CompletePlan(station, bs, n, p) ensures AtMost(best, PlanCost(locs, p)) {
      InitialExtended(station, p);
    }
  }

  /** Placing `bs[i]` last on route `j` leads to the next node. */
  lemma NodeStep(station: nat, bs: seq<nat>, r: Plan, fires: seq<bool>, placed: seq<nat>, i: nat, j: nat)
    requires Node(station, bs, r, fires, placed)
    requires i < |bs| && fires[bs[i]] && j < |r|
    ensures Node(station, bs, r[j := r[j] + [bs[i]]], fires[bs[i] := false], placed + [bs[i]])
  {
    var b := bs[i];
    StopsSnoc(r, j, b);
    SeededSnoc(station, r, j, b);
    PlaceStep(bs, fires, placed, i);
  }

  /** Appending a stop to one route keeps every route seeded with the station. */
  lemma SeededSnoc(station: nat, r: Plan, j: nat, b: nat)
    requires Seeded(station, r) && j < |r|
    ensures Seeded(station, r[j := r[j] + [b]])
  {
    var r1 := r[j := r[j] + [b]];
    forall f | 0 <= f < |r1| ensures |r1[f]| >= 1 && r1[f][0] == station {
      if f == j {
        assert r1[f][0] == r[j][0];
      }
    }
  }

  /** Putting out burning `bs[i]` and placing it keeps the fires and the placed list in step. */
  lemma PlaceStep(bs: seq<nat>, fires: seq<bool>, placed: seq<nat>, i: nat)
    requires forall k :: 0 <= k < |bs| ==> bs[k] < |fires|
    requires Distinct(placed) && forall x :: x in placed ==> x in bs
    requires forall k :: 0 <= k < |bs| ==> (fires[bs[k]] <==> bs[k] !in placed)
    requires i < |bs| && fires[bs[i]]
    ensures Distinct(placed + [bs[i]]) && forall x :: x in placed + [bs[i]] ==> x in bs
    ensures forall k :: 0 <= k < |bs| ==> (fires[bs[i] := false][bs[k]] <==> bs[k] !in placed + [bs[i]])
  {
    assert bs[i] !in placed;
  }

  /**
   * One step down the search tree: placing burning `bs[i]` at the end of
   * route `j` gives a node with one more placed building whose cost grew by
   * the leg from the route's last building, and undoing both changes gives
   * back the node's routes and fires.
   */
  lemma Descend(locs: seq<Loc>, station: nat, bs: seq<nat>, r: Plan, fires: seq<bool>, placed: seq<nat>, i: nat, j: nat)
    requires Node(station, bs, r, fires, placed)
    requires i < |bs| && fires[bs[i]] && j < |r|
    ensures |r[j]| >= 1
    ensures Node(station, bs, r[j := r[j] + [bs[i]]], fires[bs[i] := false], placed + [bs[i]])
    ensures PlanCost(locs, r[j := r[j] + [bs[i]]]) == PlanCost(locs, r) + Leg(locs, r[j][|r[j]| - 1], bs[i])
    ensures r[j := r[j] + [bs[i]]][j := (r[j] + [bs[i]])[..|r[j]|]] == r
    ensures fires[bs[i] := false][bs[i] := true] == fires
  {
    NodeStep(station, bs, r, fires, placed, i, j);
    PlanCostSnoc(locs, r, j, bs[i]);
    UndoStep(r, j, bs[i]);
    UndoFire(fires, bs[i]);
  }

  /** Removing the stop just appended gives back the routes. */
  lemma UndoStep(r: Plan, j: nat, b: nat)
    requires j < |r|
    ensures r[j := r[j] + [b]][j := (r[j] + [b])[..|r[j]|]] == r
  {
    assert (r[j] + [b])[..|r[j]|] == r[j];
  }

  /** Setting the fire again that was just put out gives back the flags. */
  lemma UndoFire(fires: seq<bool>, b: nat)
    requires b < |fires| && fires[b]
    ensures fires[b := false][b := true] == fires
  {
  }

  /** When every filtered building is placed, the node's routes are a complete plan. */
  lemma BaseRecord(station: nat, bs: seq<nat>, r: Plan, fires: seq<bool>, placed: seq<nat>)
    requires Node(station, bs, r, fires, placed) && |placed| == |bs|
    ensures Distinct(bs) && CompletePlan(station, bs, |r|, r)
  {
    FillMultiset(placed, bs);
  }

  /** A bound on a node's own cost bounds all its continuations. */
  lemma BaseBound(best: Option<int>, locs: seq<Loc>, station: nat, bs: seq<nat>, r: Plan)
    requires AtMost(best, PlanCost(locs, r))
    ensures Bounded(best, locs, station, bs, r)
  {
    forall p | CompletePlan(station, bs, |r|, p) && Extends(p, r) ensures AtMost(best, PlanCost(locs, p)) {
      PlanCostExtends(locs, p, r);
    }
  }

  /** Nothing has been tried before the loops start. */
  lemma StartBound(best: Option<int>, locs: seq<Loc>, station: nat, bs: seq<nat>, r: Plan)
    ensures BoundedUpTo(best, locs, station, bs, r, 0, 0)
  {
  }

  /** A better recorded cost keeps every bound. */
  lemma BoundWeaken(c1: Option<int>, c0: Option<int>, locs: seq<Loc>, station: nat, bs: seq<nat>, r: Plan, i: int, j: int)
    requires NoWorse(c1, c0) && BoundedUpTo(c0, locs, station, bs, r, i, j)
    ensures BoundedUpTo(c1, locs, station, bs, r, i, j)
  {
  }

  /**
   * After trying building `bs[i]` on route `j` (recursing, or pruning because
   * the partial cost already reached the best), the bound covers that step.
   */
  lemma StepBound(best0: Option<int>, best1: Option<int>, locs: seq<Loc>, station: nat, bs: seq<nat>, r: Plan, i: nat, j: nat)
    requires i < |bs| && j < |r| && |r[j]| >= 1
    requires BoundedUpTo(best0, locs, station, bs, r, i, j)
    requires NoWorse(best1, best0)
    requires Bounded(best1, locs, station, bs, r[j := r[j] + [bs[i]]])
          || AtMost(best1, PlanCost(locs, r[j := r[j] + [bs[i]]]))
    ensures BoundedUpTo(best1, locs, station, bs, r, i, j + 1)
  {
    if Distinct(bs) {
      var r1, j1 := r[j := r[j] + [bs[i]]], j + 1;
      forall p, f | CompletePlan(station, bs, |r|, p) && Extends(p, r) && Tried(p, f, r, bs, i, j1)
        ensures AtMost(best1, PlanCost(locs, p))
      {
        if Tried(p, f, r, bs, i, j) {
          BoundWeaken(best1, best0, locs, station, bs, r, i, j);
        } else {
          assert f == j && p[j][|r[j]|] == bs[i];
          NextStopExtends(p, r, j);
          PlanCostExtends(locs, p, r1);
          assert CompletePlan(station, bs, |r1|, p);
        }
      }
    }
  }

  /**
   * At a node, the next building a complete continuation visits on any route
   * is one that has not been placed yet.
   */
  lemma NextStopUnplaced(station: nat, bs: seq<nat>, r: Plan, fires: seq<bool>, placed: seq<nat>, p: Plan, f: nat)
    requires Node(station, bs, r, fires, placed) && Distinct(bs)
    requires CompletePlan(station, bs, |r|, p) && Extends(p, r)
    requires f < |r| && |r[f]| < |p[f]|
    ensures p[f][|r[f]|] !in placed
  {
    var b := p[f][|r[f]|];
    var r1 := r[f := r[f] + [b]];
    NextStopExtends(p, r, f);
    StopsSnoc(r, f, b);
    StopsExtends(p, r1);
    assert multiset(Stops(r1))[b] <= 1;
    assert multiset(placed)[b] == 0;
  }

  /** A building that is already out cannot be the next stop of a complete continuation. */
  lemma SkipBound(best: Option<int>, locs: seq<Loc>, station: nat, bs: seq<nat>, r: Plan, fires: seq<bool>, placed: seq<nat>, i: nat)
    requires Node(station, bs, r, fires, placed)
    requires i < |bs| && !fires[bs[i]]
    requires BoundedUpTo(best, locs, station, bs, r, i, 0)
    ensures BoundedUpTo(best, locs, station, bs, r, i + 1, 0)
  {
    if Distinct(bs) {
      var i1 := i + 1;
      forall p, f | CompletePlan(station, bs, |r|, p) && Extends(p, r) && Tried(p, f, r, bs, i1, 0)
        ensures AtMost(best, PlanCost(locs, p))
      {
        NextStopUnplaced(station, bs, r, fires, placed, p, f);
        assert bs[i] in placed;
        assert bs[..i + 1] == bs[..i] + [bs[i]];
        assert Tried(p, f, r, bs, i, 0);
      }
    }
  }

  /** Having tried `bs[i]` with every firefighter is having tried everything before `bs[i + 1]`. */
  lemma RowBound(best: Option<int>, locs: seq<Loc>, station: nat, bs: seq<nat>, r: Plan, i: nat)
    requires i < |bs|
    requires BoundedUpTo(best, locs, station, bs, r, i, |r|)
    ensures BoundedUpTo(best, locs, station, bs, r, i + 1, 0)
  {
    if Distinct(bs) {
      var i1 := i + 1;
      forall p, f | CompletePlan(station, bs, |r|, p) && Extends(p, r) && Tried(p, f, r, bs, i1, 0)
        ensures AtMost(best, PlanCost(locs, p))
      {
        assert bs[..i + 1] == bs[..i] + [bs[i]];
        assert Tried(p, f, r, bs, i, |r|);
      }
    }
  }

  /**
   * Once every (building, firefighter) pair has been tried at a node where some
   * building is still unplaced, every complete continuation is bounded.
   */
  lemma ExhaustedBound(best: Option<int>, locs: seq<Loc>, station: nat, bs: seq<nat>, r: Plan, fires: seq<bool>, placed: seq<nat>)
    requires Node(station, bs, r, fires, placed) && |placed| < |bs|
    requires BoundedUpTo(best, locs, station, bs, r, |bs|, 0)
    ensures Bounded(best, locs, station, bs, r)
  {
    if Distinct(bs) {
      forall p | CompletePlan(station, bs, |r|, p) && Extends(p, r) ensures AtMost(best, PlanCost(locs, p)) {
        var f := LongerRoute(station, bs, r, fires, placed, p);
        StopAt(p, f, |r[f]|);
        assert p[f][|r[f]|] in multiset(bs);
        assert bs[..|bs|] == bs;
        assert Tried(p, f, r, bs, |bs|, 0);
      }
    }
  }

  /** While some building is unplaced, a complete continuation is longer on some route. */
  lemma LongerRoute(station: nat, bs: seq<nat>, r: Plan, fires: seq<bool>, placed: seq<nat>, p: Plan) returns (f: nat)
    requires Node(station, bs, r, fires, placed) && |placed| < |bs|
    requires CompletePlan(station, bs, |r|, p) && Extends(p, r)
    ensures f < |r| && |r[f]| < |p[f]|
  {
    assert |Stops(r)| == |placed| by {
      assert |multiset(Stops(r))| == |multiset(placed)|;
    }
    assert |Stops(p)| == |bs| by {
      assert |multiset(Stops(p))| == |multiset(bs)|;
    }
    assert p != r;
    assert exists g :: 0 <= g < |r| && p[g] != r[g];
    var g :| 0 <= g < |r| && p[g] != r[g];
    assert r[g] <= p[g];
    f := g;
  }
}
