# Fire dispatch: a verified model

This project models the route optimiser of the Firefighters repository and
proves properties of it in Dafny. A city is a grid of buildings, some of them
burning. `FireDispatchImpl` receives a list of reported city nodes and
drops the null reports and the buildings that are not burning. It then
searches, by exhaustive branch-and-bound backtracking, for the assignment
of the remaining buildings to firefighters that minimises the total
Manhattan distance travelled. Finally it sends every firefighter along its
route and puts the fires out. `FirefighterImpl` is the firefighter it drives:
a position and an odometer.

The model keeps the source's imperative form:

- **The search** is a method over an `array` of routes and the city's
  `array<bool>` of burning flags. Like `minDistanceTraveled`, it appends a
  building to a route, puts its fire out, adds the leg, recurses only while
  the partial cost is below the best, and then undoes all three.
- **`Result`** is a class whose fields the search overwrites.
- **Firefighters** are objects whose `TravelTo` updates `location` and
  `distance`.

What the methods promise is stated against value-level definitions in
`Plans`, `Fires` and `SearchFacts`. These are route cost, plan cost, the
stops of a plan, and the flags left after a list of stops is put out. The
lemmas about those definitions carry the proofs.

Modules and files:

| file | module | contents |
|---|---|---|
| wrappers.dfy | `Wrappers` | `Option` |
| cities.dfy | `Cities` | grid positions, the Manhattan metric, the city's buildings and burning flags (class `City`) |
| firefighters.dfy | `Firefighters` | the firefighter class and the walk along a list of positions |
| plans.dfy | `Plans` | routes, plans, their costs, what a complete plan is, and cost lemmas |
| fires.dfy | `Fires` | the burning flags after a list of stops is put out |
| search_facts.dfy | `SearchFacts` | the search's node invariant and the bound lemmas behind optimality |
| dispatch.dfy | `Dispatch` | `Filter`, `Result`, and the class `FireDispatch` with `SetFirefighters`, `DispatchFirefighters`, the search and the commit |
| scenarios.dfy | `Scenarios` | the basic JUnit scenarios, as client methods with their expected values proved |

Encoding decisions:

- A building is an index into `City.locs` (its coordinates) and
  `City.burning` (its flag). The fire station is a building index.
- A reported city node is `Option<nat>`: `None` is a null report, and
  `Some(b)` is the building that `city.getBuilding` returns.
- A route is a `seq<nat>` that starts with the station, as
  `FireDispatchImpl.java:62-66` seeds it. A plan holds one route per
  firefighter, in roster order.
- The `Integer.MAX_VALUE` cost sentinel is `None`. The `null` route map is
  `None` as well.
- `DispatchFirefighters` returns an `Outcome`, so that a call that throws in
  the source still has a modelled result:
  - `NullRoster`: the `NullPointerException` when `setFirefighters` was never
    called;
  - `NullRoutes`: the `NullPointerException` at line 122 when no plan was
    recorded;
  - `InvalidScenario`: the exception that a stop found not burning would
    raise. It is proved never to happen.

On these points the model follows the code as written:

- **Pruning.** The search compares the partial cost with the best after it has added the
  leg of the step being tried (`FireDispatchImpl.java:103-105`), and
  recurses only when it is strictly below.
- **Starting position.** `setFirefighters` calls a `FirefighterImpl(CityNode)` constructor
  (`FireDispatchImpl.java:25`), but `FirefighterImpl.java` declares none. Its
  fields start at (0,0) with distance 0, which is `Firefighter.constructor`.
  The model gives the dispatcher's firefighters the named constructor `At`,
  placing them at the fire station with distance 0.
- **Duplicate reports.** A building reported twice (and burning) appears twice in the filtered
  list. Then no assignment can ever be complete, no plan is recorded, and the
  commit dereferences `null`. The model keeps that behaviour: the search is
  proved for any filtered list, it records a plan exactly when the list is
  distinct (and there is a firefighter, or nothing to do), and otherwise
  `DispatchFirefighters` returns `NullRoutes`.
- **Odometers and the search cost.** The commit measures from each firefighter's actual position, while the search
  measures from the station. The total odometer growth equals the plan's cost
  only when every firefighter stands at the station; the contract says
  exactly that.

## Model

| member | source | states |
|---|---|---|
| Cities.Abs | src/main/firefighters/FirefighterImpl.java:30-31 | `Math.abs`: the result is `v` or `-v` and never negative |
| Cities.Manhattan | src/main/firefighters/FirefighterImpl.java:29-31 | the distance is non-negative and is zero exactly when the two positions are equal |
| Cities.ManhattanOf | src/main/firefighters/FirefighterImpl.java:29-31 | two positions `dx` apart in x and `dy` apart in y are `dx + dy` apart |
| Cities.ManhattanSymmetric | src/main/firefighters/FirefighterImpl.java:29-31 | the distance from a to b is the distance from b to a |
| Cities.ManhattanTriangle | src/main/firefighters/FireDispatchImpl.java:103 | the triangle inequality for the leg metric |
| Cities.City.constructor | src/main/firefighters/FireDispatchImpl.java:12 | a city with the given coordinates, station and burning flags |
| Cities.City.ExtinguishFire | src/main/firefighters/FireDispatchImpl.java:129-131 | reports whether the building was burning (it throws NoFireFoundException otherwise), and afterwards it is not burning; no other flag changes |
| Cities.City.SetFire | src/main/firefighters/FireDispatchImpl.java:109 | the building burns again; no other flag changes |
| Firefighters.PathLengthSnoc | src/main/firefighters/FirefighterImpl.java:23-27 | walking on to one more position adds exactly the leg from where the walk ended, and the walk now ends there |
| Firefighters.Firefighter.constructor | src/main/firefighters/FirefighterImpl.java:9-10 | a fresh firefighter stands at (0,0) with distance 0 |
| Firefighters.Firefighter.At | src/main/firefighters/FireDispatchImpl.java:25 | a firefighter created from the station location stands there with distance 0 |
| Firefighters.Firefighter.DistanceTo | src/main/firefighters/FirefighterImpl.java:29-31 | the distance from the current location, computed by the one Manhattan metric `Cities.Manhattan`, is zero exactly when the target is the current location |
| Firefighters.Firefighter.TravelTo | src/main/firefighters/FirefighterImpl.java:23-27 | null leaves location and distance unchanged; otherwise the distance grows by the Manhattan distance from the old location and the location becomes the target; the distance never decreases |
| Plans.Initial | src/main/firefighters/FireDispatchImpl.java:62-67 | one route per firefighter, each holding just the station, with no stops |
| Plans.ImprovesAtMost | src/main/firefighters/FireDispatchImpl.java:86 | a cost fails to beat the recorded best exactly when a best is recorded and it is at most that cost |
| Plans.NoWorseChain | src/main/firefighters/FireDispatchImpl.java:86-88 | "no worse" on recorded costs is transitive, and a chain that returns to its start is constant |
| Plans.RouteCostSnoc | src/main/firefighters/FireDispatchImpl.java:99-103 | appending a building to a route adds the leg from the route's last building |
| Plans.RouteCostPrefix | src/main/firefighters/FireDispatchImpl.java:104-106 | continuing a route never makes it cheaper |
| Plans.PlanCostUpdate | src/main/firefighters/FireDispatchImpl.java:101-110 | replacing one route changes the plan cost by the difference of the two route costs |
| Plans.PlanCostSnoc | src/main/firefighters/FireDispatchImpl.java:101-103 | appending a building to one route adds that route's leg to the plan cost (the `pathCost +=` step) |
| Plans.PlanCostExtends | src/main/firefighters/FireDispatchImpl.java:104-106 | a plan that continues the current routes costs at least what they cost, so pruning is sound |
| Plans.RouteCostWalk | src/main/firefighters/FireDispatchImpl.java:121-127 | the cost of a route from the station is the distance a firefighter at the station walks along its tail, and the walk ends at the route's last building |
| Plans.StopsSnoc | src/main/firefighters/FireDispatchImpl.java:101 | appending a building to one route adds exactly one occurrence of it to the plan's stops |
| Plans.StopAt | src/main/firefighters/FireDispatchImpl.java:126 | every building after the seed of a route is a stop of the plan |
| Plans.StopsExtends | src/main/firefighters/FireDispatchImpl.java:101-110 | continuing seeded routes keeps every stop, and a proper continuation has strictly more stops |
| Plans.WalkStep | src/main/firefighters/FireDispatchImpl.java:126-127 | a walk through one more building ends there and adds the leg from where the walk ended |
| Plans.StopsTake | src/main/firefighters/FireDispatchImpl.java:122-126 | the stops of the first f+1 routes are those of the first f routes, then the tail of route f |
| Plans.StopsTakePrefix | src/main/firefighters/FireDispatchImpl.java:122 | the stops of the first routes are a prefix of the plan's stops |
| Plans.StopsGrow | src/main/firefighters/FireDispatchImpl.java:101 | continuing seeded routes keeps every stop (multiset inclusion) |
| Plans.StopsLonger | src/main/firefighters/FireDispatchImpl.java:101 | continuing seeded routes never shortens the stops, and a proper continuation lengthens them |
| Plans.NextStopExtends | src/main/firefighters/FireDispatchImpl.java:96-101 | extending a route of `r` by the next building that plan `p` visits on it keeps `p` a continuation |
| Plans.InitialExtended | src/main/firefighters/FireDispatchImpl.java:62-67 | every seeded plan with as many routes continues the initial plan |
| Plans.NoStops | src/main/firefighters/FireDispatchImpl.java:84-88 | seeded routes without stops are each just the station and cost 0 |
| Plans.OneRoutePlan | src/main/firefighters/FireDispatchImpl.java:84 | with at least one firefighter a complete plan exists: the first firefighter takes every building |
| Plans.FillMultiset | src/main/firefighters/FireDispatchImpl.java:84 | once `count == buildings.size()` distinct placed buildings drawn from the list are exactly the list, and the list has no repeats |
| Plans.SumDeltas | src/main/scenarios/BasicScenarios.java:138 | if every odometer grew by its route's cost, the sum of the odometers grew by the plan's cost |
| Fires.ClearedAt | src/main/firefighters/FireDispatchImpl.java:126-131 | after putting out a list of stops, a building still burns exactly when it was burning and is not a stop |
| Fires.ClearedNone | src/main/firefighters/FireDispatchImpl.java:122 | putting out nothing leaves the flags unchanged |
| Fires.VisitStep | src/main/firefighters/FireDispatchImpl.java:126-131 | the fire at one more stop is found exactly when its flag is still set, and putting it out clears only that flag |
| Fires.VisitAppend | src/main/firefighters/FireDispatchImpl.java:122-133 | putting out `s` then `t` is putting out `s + t`, and `s + t` burn in turn exactly when `s` do and then `t` do on the flags `s` leaves |
| Fires.AllBurningPrefix | src/main/firefighters/FireDispatchImpl.java:126-131 | if a list of stops burns in turn, so does every first part of it |
| Fires.AllBurningDistinct | src/main/firefighters/FireDispatchImpl.java:129-131 | stops burn in turn (no NoFireFoundException) exactly when they are distinct and all burning at the start |
| Fires.ClearedSame | src/main/firefighters/FireDispatchImpl.java:122 | putting out the same buildings in any order leaves the same flags, so the route order in the map does not matter |
| SearchFacts.InitialNode | src/main/firefighters/FireDispatchImpl.java:62-71 | the search starts at a node: seeded routes, nothing placed, every filtered building burning |
| SearchFacts.InitialBound | src/main/firefighters/FireDispatchImpl.java:71 | a bound on all continuations of the initial routes bounds every complete plan |
| SearchFacts.NodeStep | src/main/firefighters/FireDispatchImpl.java:99-102 | placing a burning building at the end of a route and putting it out leads to a node with one more placed building |
| SearchFacts.PlaceStep | src/main/firefighters/FireDispatchImpl.java:95-102 | putting out a burning building and placing it keeps "burning exactly when not placed" and "no building placed twice" |
| SearchFacts.Descend | src/main/firefighters/FireDispatchImpl.java:99-110 | one step down: the next node, its cost grown by the leg, and undoing the route and the fire gives back the node exactly |
| SearchFacts.UndoStep | src/main/firefighters/FireDispatchImpl.java:110 | removing the building just appended gives back the routes |
| SearchFacts.UndoFire | src/main/firefighters/FireDispatchImpl.java:109 | setting again the fire just put out gives back the flags |
| SearchFacts.BaseRecord | src/main/firefighters/FireDispatchImpl.java:84-88 | at the base case the routes are a complete plan of the filtered list, which has no repeats |
| SearchFacts.BaseBound | src/main/firefighters/FireDispatchImpl.java:84-90 | at the base case a best no greater than the node's cost bounds every continuation |
| SearchFacts.StartBound | src/main/firefighters/FireDispatchImpl.java:93 | before the loops nothing has been tried, so the bound holds vacuously |
| SearchFacts.BoundWeaken | src/main/firefighters/FireDispatchImpl.java:86-88 | a better recorded cost keeps every bound |
| SearchFacts.StepBound | src/main/firefighters/FireDispatchImpl.java:103-106 | after trying one (building, firefighter) pair, whether by recursing or by pruning, the bound covers that pair |
| SearchFacts.NextStopUnplaced | src/main/firefighters/FireDispatchImpl.java:95 | the next stop that any complete continuation makes on a route is a building not yet placed |
| SearchFacts.SkipBound | src/main/firefighters/FireDispatchImpl.java:95 | skipping a building that is not burning loses no complete continuation |
| SearchFacts.RowBound | src/main/firefighters/FireDispatchImpl.java:96-111 | trying a building with every firefighter is trying everything before the next building |
| SearchFacts.ExhaustedBound | src/main/firefighters/FireDispatchImpl.java:93-112 | once every pair has been tried at a node with an unplaced building, every complete continuation is bounded |
| SearchFacts.LongerRoute | src/main/firefighters/FireDispatchImpl.java:84 | while a building is unplaced, a complete continuation is longer than the node on some route |
| Dispatch.Filter | src/main/firefighters/FireDispatchImpl.java:50-54 | every kept building is in the city and burning, and there are no more kept buildings than reports (`FilterMembers` shows each kept building was reported) |
| Dispatch.FilterCount | src/main/firefighters/FireDispatchImpl.java:50-54 | a burning building occurs in the filtered list exactly as often as it was reported; a building that is not burning never occurs |
| Dispatch.FilterMembers | src/main/firefighters/FireDispatchImpl.java:50-54 | a building is kept exactly when it was reported (not null) and is burning |
| Dispatch.FilterAppend | src/main/firefighters/FireDispatchImpl.java:50-54 | filtering a concatenation concatenates the filtered parts, so the report order is kept |
| Dispatch.SearchSettles | src/main/firefighters/FireDispatchImpl.java:58-90 | after the search, no plan is recorded exactly when the filtered list repeats a building, or lists a building when there are no firefighters; a recorded plan is optimal |
| Dispatch.PlanExists | src/main/firefighters/FireDispatchImpl.java:84-88 | with a firefighter, or nothing to place, some complete plan exists, so a bound on all of them is a recorded cost |
| Dispatch.NoRoutes | src/main/firefighters/FireDispatchImpl.java:63-67 | without firefighters only the empty list of buildings has a complete plan |
| Dispatch.CommitReady | src/main/firefighters/FireDispatchImpl.java:121-133 | a complete plan of the distinct burning filtered buildings can be committed: its stops are in the city, burn in turn, and putting them out clears exactly those buildings |
| Dispatch.WalkedPlanCost | src/main/firefighters/FireDispatchImpl.java:121-127 | firefighters who start at the station and walk the plan's routes travel, together, exactly the plan's cost |
| Dispatch.CommitStep | src/main/firefighters/FireDispatchImpl.java:122-133 | one firefighter's part of the commit extends the set of buildings put out by its route's stops, and a stop that is not burning there means the plan's stops do not burn in turn |
| Dispatch.NothingToDispatch | src/main/firefighters/FireDispatchImpl.java:84-88 | with no burning report, every complete plan keeps each firefighter at the station, costs 0, and walking it moves nobody |
| Dispatch.Result.constructor | src/main/firefighters/FireDispatchImpl.java:136-144 | a result holding the given cost and routes |
| Dispatch.FireDispatch.constructor | src/main/firefighters/FireDispatchImpl.java:16-18 | a dispatcher for the city, with no roster yet |
| Dispatch.FireDispatch.SetFirefighters | src/main/firefighters/FireDispatchImpl.java:21-29 | the roster becomes exactly `n` new, distinct firefighters, each at the station with distance 0 |
| Dispatch.FireDispatch.DispatchFirefighters | src/main/firefighters/FireDispatchImpl.java:37-78 | with duplicate-free burning reports and a roster, the committed plan is complete and optimal, every filtered building is put out and no other, each firefighter has walked its route, and, if every firefighter started at the station, the odometers grew by the plan's cost in total; otherwise the `null` outcomes, with nothing changed |
| Dispatch.FireDispatch.FindBestPlan | src/main/firefighters/FireDispatchImpl.java:56-71 | the set-up and search leave the flags as they were, record a plan exactly when the filtered list repeats no building and there is a firefighter or nothing to place, and the recorded plan is complete, costs the recorded cost and is optimal |
| Dispatch.FireDispatch.UpdateResult | src/main/firefighters/FireDispatchImpl.java:115-119 | the result takes the cost and a copy of the current routes |
| Dispatch.FireDispatch.MinDistanceTraveled | src/main/firefighters/FireDispatchImpl.java:80-113 | routes and flags are restored on return; the recorded cost never gets worse and is changed only for a strictly better plan, keeping the first minimum; a recorded plan is complete with its cost; the result bounds every complete continuation of the entry routes |
| Dispatch.FireDispatch.TryBuilding | src/main/firefighters/FireDispatchImpl.java:93-112 | one turn of the loop over buildings: skips a building that is not burning, otherwise tries it with every firefighter; it keeps the same invariants and extends the bound to the next building |
| Dispatch.FireDispatch.Step | src/main/firefighters/FireDispatchImpl.java:96-110 | one (building, firefighter) branch: state is restored afterwards, and either the branch's continuations are bounded or the pruned partial cost is already no better than the best |
| Dispatch.FireDispatch.DispatchFirefightersToRoute | src/main/firefighters/FireDispatchImpl.java:121-134 | the commit succeeds exactly when the plan's stops burn in turn; then the flags are those stops put out, each firefighter has walked its route and stands at its last stop, and, if all started at the station, the odometers grew by the plan's cost |
| Dispatch.FireDispatch.DispatchMember | src/main/firefighters/FireDispatchImpl.java:122-133 | committing route `f` extends the buildings put out by its stops and leaves every other firefighter as it was |
| Dispatch.FireDispatch.DispatchRoute | src/main/firefighters/FireDispatchImpl.java:124-133 | one firefighter travels to each stop after the seed and puts its fire out; it succeeds exactly when the stops burn in turn, and then the firefighter has walked the route |
| Scenarios.DispatchAlone | src/main/scenarios/BasicScenarios.java:21-28 | a city, one firefighter and a dispatch: the committed plan is complete and optimal, exactly the reported burning buildings are put out, and the firefighter has walked its route |
| Scenarios.SingleFire | src/main/scenarios/BasicScenarios.java:19-30 | after dispatching to the fire at (0,1) of a 5-by-5 city, that building is not burning |
| Scenarios.NullFire | src/main/scenarios/BasicScenarios.java:32-44 | a null report sends nobody: the firefighter has distance 0 and is still at the station (1,1) |
| Scenarios.SoleRoute | src/main/scenarios/BasicScenarios.java:27 | with one firefighter, a complete plan is the station followed by a reordering of the fires |
| Scenarios.SoleRouteWalk | src/main/scenarios/BasicScenarios.java:58-60 | the single firefighter's walk has its route's length and ends at its last building |
| Scenarios.SoleRouteBest | src/main/scenarios/BasicScenarios.java:91-95 | an optimal single route is no longer than any other route through the fires |
| Scenarios.SingleStopWalk | src/main/scenarios/BasicScenarios.java:58-60 | for a single fire, the walk is the leg from the station and ends at the fire |
| Scenarios.TwoLegs | src/main/scenarios/BasicScenarios.java:95 | a route through two buildings costs the sum of its two legs |
| Scenarios.NearFirstCost | src/main/scenarios/BasicScenarios.java:95 | in the 2-by-2 city, station, (0,1), (1,1) costs 2 |
| Scenarios.FarFirstCost | src/main/scenarios/BasicScenarios.java:95 | in the 2-by-2 city, station, (1,1), (0,1) costs 3 |
| Scenarios.NotFarFirst | src/main/scenarios/BasicScenarios.java:91-95 | an optimal route for the fires at (0,1) and (1,1) does not visit (1,1) first, since that order costs 3 and the other 2 |
| Scenarios.NearFirst | src/main/scenarios/BasicScenarios.java:91-96 | for fires at (0,1) and (1,1) the optimal route visits (0,1) first |
| Scenarios.DoubleFireWalk | src/main/scenarios/BasicScenarios.java:95-96 | that route walks 2 and ends at (1,1) |
| Scenarios.DoubleFireOutcome | src/main/scenarios/BasicScenarios.java:94-97 | the optimal single route for the fires at (0,1) and (1,1) walks 2, ends at (1,1) and leaves neither building burning |
| Scenarios.DispatchNearAndFar | src/main/scenarios/BasicScenarios.java:80-98 | dispatching one firefighter to those two fires in any city with the 2-by-2 corners gives distance 2, location (1,1), and neither (0,1) nor (1,1) burns |
| Scenarios.Diagonal | src/main/scenarios/BasicScenarios.java:46-61 | the firefighter sent to the opposite corner has distance 2 and stands at (1,1) |
| Scenarios.Adjacent | src/main/scenarios/BasicScenarios.java:63-78 | the firefighter sent to the neighbouring building has distance 1 and stands at (1,0) |
| Scenarios.SimpleDoubleFire | src/main/scenarios/BasicScenarios.java:80-98 | one firefighter puts out both fires, walks 2 in all and ends at (1,1) |
| Scenarios.SingleReport | src/main/scenarios/BasicScenarios.java:24-28 | a single report of a burning building passes the filter as that building alone, with no repeat |
| Scenarios.SquareDiagonal | src/main/scenarios/BasicScenarios.java:46-60 | in the 2-by-2 city the opposite corner (1,1) is 2 away from the station at (0,0) |
| Scenarios.NearAndFarReports | src/main/scenarios/BasicScenarios.java:84-92 | the reports of (0,1) and (1,1), both burning, pass the filter unchanged and without repeats |
| Scenarios.DispatchPair | src/main/scenarios/BasicScenarios.java:200-210 | a city, two firefighters and a dispatch: the committed plan is complete and optimal, exactly the reported fires are put out, and each firefighter has walked its own route from the station |
| Scenarios.OneLeg | src/main/scenarios/BasicScenarios.java:227 | a route of one building after the station costs the one leg to it |
| Scenarios.LegOf | src/main/firefighters/FirefighterImpl.java:29-31 | two buildings `dx` apart across and `dy` apart along are `dx + dy` apart |
| Scenarios.NeighbourLegs | src/main/scenarios/BasicScenarios.java:200-206 | in any city with the corners of the 2-by-2 city, (0,1) and (1,0) are each 1 from the station and 2 from each other |
| Scenarios.SquareGaps | src/main/scenarios/BasicScenarios.java:200-206 | the 2-by-2 city has four buildings and those distances |
| Scenarios.PairStops | src/main/scenarios/BasicScenarios.java:209-210 | the stops of a plan for two firefighters are the first route's stops followed by the second's |
| Scenarios.PairCost | src/main/scenarios/BasicScenarios.java:213-217 | a plan for two firefighters costs the sum of its two route costs |
| Scenarios.SplitCost | src/main/scenarios/BasicScenarios.java:227 | one firefighter to each neighbour of the station costs 2 in all |
| Scenarios.ChainCost | src/main/scenarios/BasicScenarios.java:227 | one firefighter through both neighbours, in either order, costs 3 |
| Scenarios.SplitWitness | src/main/scenarios/BasicScenarios.java:227 | sending one firefighter to each fire is a complete plan that costs 2 |
| Scenarios.NeighbourStops | src/main/scenarios/BasicScenarios.java:204-206 | the two reported fires form the multiset {1, 2} |
| Scenarios.LoneRoute | src/main/scenarios/BasicScenarios.java:209-210 | when one route of a complete two-route plan holds both fires, the other holds none and the first holds exactly the fires |
| Scenarios.ChainedPlan | src/main/scenarios/BasicScenarios.java:209-210 | such a plan leaves the other firefighter at the station and sends the first through both fires in one of the two orders |
| Scenarios.NotChained | src/main/scenarios/BasicScenarios.java:227 | an optimal plan does not give both fires to one firefighter, since that costs 3 and the split costs 2 |
| Scenarios.PairSplit | src/main/scenarios/BasicScenarios.java:227-229 | an optimal plan sends each firefighter to exactly one of the two fires and costs 2 |
| Scenarios.PairWalks | src/main/scenarios/BasicScenarios.java:212-229 | the two walks along an optimal plan total 2, and one ends at each fire |
| Scenarios.DispatchNeighbours | src/main/scenarios/BasicScenarios.java:209-230 | dispatching two firefighters to the station's two neighbours, in any city with those distances, gives total distance 2, a firefighter standing at each fire, and neither building burning |
| Scenarios.NeighbourReports | src/main/scenarios/BasicScenarios.java:204-207 | the reports of (0,1) and (1,0), both burning, pass the filter unchanged and without repeats |
| Scenarios.DoubleFirefighterDoubleFire | src/main/scenarios/BasicScenarios.java:198-231 | two firefighters travel 2 in all, some firefighter stands at each fire, and neither building burns, as asserted at lines 227-230 |

## Left out

- The `counter` field, its increment and the `System.out.println(counter)` (`FireDispatchImpl.java:14, 75, 85`): diagnostics only.
- `getFirefighters` (`FireDispatchImpl.java:31-35`): its `parallelStream` defensive copy is incidental, and the model reads the roster as `FireDispatch.Roster()`.
- `getLocation` and `distanceTraveled` (`FirefighterImpl.java:12-21`): they return the fields `location` and `distance`, which clients read directly.
- `HashMap` iteration order in the commit (`FireDispatchImpl.java:60, 122`): Java gives no order. The model commits the routes in roster order. The routes have disjoint stops, so the flags put out do not depend on the order (`Fires.ClearedSame`).
- `city::getBuilding`, `CityNode.distanceTo`, `Building`, `CityImpl` and `Pyromaniac`: these classes are not part of this model. A building is an index with coordinates and a burning flag; `CityNode.distanceTo` is taken to be the same Manhattan distance as `FirefighterImpl.distanceTo`. `getBuilding` is assumed to succeed on every reported node: `Filter` and `DispatchFirefighters` require (`InCity`) that every non-null report names a building of the city, so a report outside the city is not modelled.
- `FireproofBuildingException` and its wrapping at `FireDispatchImpl.java:72-74`: the exception belongs to setting a fire (the scenarios' `Pyromaniac.setFire` callers declare it, `BasicScenarios.java:20, 25`), and the search calls `building.setFire()` at `FireDispatchImpl.java:109` to undo a step. The search only re-sets buildings that were burning, and the model assumes those are not fireproof, so `City.SetFire` always succeeds. The model's `ExtinguishFire` returns a flag instead of throwing `NoFireFoundException`.
- Java `int` arithmetic: costs and distances are unbounded integers, and `Integer.MAX_VALUE` is `None`; overflow on very large cities is not modelled.
- A negative `numFirefighters` (`FireDispatchImpl.java:23`, a `NegativeArraySizeException`): `SetFirefighters` takes a `nat`.
- Dispatch.FireDispatch.DispatchFirefightersToRoute: when some stop is not burning, it states only that the commit failed, not how many firefighters had already moved; from `DispatchFirefighters` this case is proved unreachable.
- Dispatch.FireDispatch.DispatchFirefighters: for the `NullRoster` and `NullRoutes` outcomes the source throws a `NullPointerException`; the model returns the outcome with state unchanged rather than modelling the exception.
- The cluster scenarios (`BasicScenarios.java:100-196`): optimality is proved for every input, but their concrete total (12) would need a lower bound over every assignment of their fires, which is left unproved. The `Collections.shuffle` randomness (`BasicScenarios.java:157-159, 183-185`) is not modelled.
- `InvalidScenarioException` (`src/main/api/exceptions/InvalidScenarioException.java`) is represented by the `InvalidScenario` outcome.
