/**
 * The grid the dispatcher works on: positions, the Manhattan metric, and the
 * city's buildings with their burning flags.
 */
module Cities {

  /** A grid position (a CityNode). */
  datatype Loc = Loc(x: int, y: int)

  function Abs(v: int): (r: nat)
    ensures r == v || r == -v
  {
    if v < 0 then -v else v
  }

  /** Manhattan distance |dx| + |dy| between two positions. */
  function Manhattan(a: Loc, b: Loc): (d: nat)
    ensures d == 0 <==> a == b
  {
    Abs(a.x - b.x) + Abs(a.y - b.y)
  }

  /** Two positions `dx` apart across and `dy` apart along are `dx + dy` apart. */
  lemma ManhattanOf(a: Loc, b: Loc, dx: nat, dy: nat)
    requires a.x - b.x == dx || b.x - a.x == dx
    requires a.y - b.y == dy || b.y - a.y == dy
    ensures Manhattan(a, b) == dx + dy
  {
  }

  lemma ManhattanSymmetric(a: Loc, b: Loc)
    ensures Manhattan(a, b) == Manhattan(b, a)
  {
  }

  lemma ManhattanTriangle(a: Loc, b: Loc, c: Loc)
    ensures Manhattan(a, c) <= Manhattan(a, b) + Manhattan(b, c)
  {
  }

  /**
   * The buildings of a city: building `b` stands at `locs[b]` and is on fire
   * when `burning[b]`; the fire station is the building `station`.
   */
  class City {
    const locs: seq<Loc>
    const station: nat
    const burning: array<bool>

    ghost predicate Valid()
    {
      station < |locs| && burning.Length == |locs|
    }

    constructor (locs: seq<Loc>, station: nat, fires: seq<bool>)
      requires station < |locs| && |fires| == |locs|
      ensures Valid() && fresh(burning)
      ensures this.locs == locs && this.station == station && burning[..] == fires
    {
      this.locs := locs;
      this.station := station;
      burning := new bool[|fires|](i requires 0 <= i < |fires| => fires[i]);
    }

    /**
     * Puts out the fire in building `b`; `ok` is false when there was no fire,
     * which the building reports by throwing NoFireFoundException.
     */
    method ExtinguishFire(b: nat) returns (ok: bool)
      requires b < burning.Length
      modifies burning
      ensures ok == old(burning[b])
      ensures burning[..] == old(burning[..])[b := false]
    {
      ok := burning[b];
      if ok {
        burning[b] := false;
      }
    }

    /** Sets building `b` on fire again (used to undo a search step). */
    method SetFire(b: nat)
      requires b < burning.Length
      modifies burning
      ensures burning[..] == old(burning[..])[b := true]
    {
      burning[b] := true;
    }
  }
}
