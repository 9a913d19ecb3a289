/** A firefighter: a position on the grid and an odometer. */
module Firefighters {
  import opened Wrappers
  import opened Cities

  /** Where a walk that starts at `start` and visits `stops` in order ends. */
  function EndOf(start: Loc, stops: seq<Loc>): Loc
  {
    if stops == [] then start else stops[|stops| - 1]
  }

  /** Sum of the Manhattan legs of the walk from `start` through `stops`. */
  function PathLength(start: Loc, stops: seq<Loc>): nat
    decreases |stops|
  {
    if stops == [] then 0
    else
      var prefix := stops[..|stops| - 1];
      PathLength(start, prefix) + Manhattan(EndOf(start, prefix), stops[|stops| - 1])
  }

  /** Extending a walk by one stop adds exactly the leg from its old end. */
  lemma PathLengthSnoc(start: Loc, stops: seq<Loc>, next: Loc)
    ensures PathLength(start, stops + [next]) == PathLength(start, stops) + Manhattan(EndOf(start, stops), next)
    ensures EndOf(start, stops + [next]) == next
  {
    assert (stops + [next])[..|stops|] == stops;
  }

  class Firefighter {
    var location: Loc
    var distance: nat

    /** A new firefighter stands at (0,0) and has travelled nothing. */
    constructor ()
      ensures location == Loc(0, 0) && distance == 0
    {
      location := Loc(0, 0);
      distance := 0;
    }

    /** A new firefighter placed at `start` (the fire station). */
    constructor At(start: Loc)
      ensures location == start && distance == 0
    {
      location := start;
      distance := 0;
    }

    /** Manhattan distance from the current location to `target`. */
    function DistanceTo(target: Loc): (d: nat)
      reads this
      ensures d == 0 <==> target == location
    {
      Manhattan(location, target)
    }

    /**
     * Moves to `newLocation`, adding the distance from the old location to the
     * odometer; a null location (`None`) leaves the firefighter where it is.
     */
    method TravelTo(newLocation: Option<Loc>)
      modifies this
      ensures old(distance) <= distance
      ensures newLocation.None? ==> location == old(location) && distance == old(distance)
      ensures newLocation.Some? ==>
                distance == old(distance) + Manhattan(old(location), newLocation.value) &&
                location == newLocation.value
    {
      if newLocation.None? {
        return;
      }
      distance := distance + DistanceTo(newLocation.value);
      location := newLocation.value;
    }
  }
}
