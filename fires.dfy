/**
 * Putting out the fires along a list of stops, one stop after another,
 * stated over the burning flags of the city's buildings.
 */
module Fires {
  import opened Plans

  /** The flags after the fires of the buildings of `s` are put out in turn. */
  function Cleared(fires: seq<bool>, s: seq<nat>): (r: seq<bool>)
    ensures |r| == |fires|
    decreases |s|
  {
    if s == [] then fires
    else
      var c := Cleared(fires, s[..|s| - 1]);
      var b := s[|s| - 1];
      if b < |c| then c[b := false] else c
  }

  /**
   * Every stop is in the city and still burning when it is reached, after
   * the stops before it have been put out.
   */
  ghost predicate AllBurning(s: seq<nat>, fires: seq<bool>)
    decreases |s|
  {
    s == [] ||
    (AllBurning(s[..|s| - 1], fires) && s[|s| - 1] < |fires| && Cleared(fires, s[..|s| - 1])[s[|s| - 1]])
  }

  /** A building is still burning after `s` exactly when it was burning and is not a stop of `s`. */
  lemma {:induction false} ClearedAt(fires: seq<bool>, s: seq<nat>, b: nat)
    requires b < |fires|
    ensures Cleared(fires, s)[b] <==> fires[b] && b !in s
    decreases |s|
  {
    if s != [] {
      var init := s[..|s| - 1];
      ClearedAt(fires, init, b);
      assert s == init + [s[|s| - 1]];
    }
  }

  /** Nothing put out: the flags are unchanged. */
  lemma ClearedNone(fires: seq<bool>)
    ensures Cleared(fires, []) == fires
    ensures AllBurning([], fires)
  {
  }

  /**
   * Reaching one more stop `b`: its fire is found exactly when its flag is
   * still set, and putting it out clears that flag.
   */
  lemma VisitStep(fires: seq<bool>, s: seq<nat>, b: nat)
    requires b < |fires|
    ensures AllBurning(s + [b], fires) <==> AllBurning(s, fires) && Cleared(fires, s)[b]
    ensures Cleared(fires, s + [b]) == Cleared(fires, s)[b := false]
  {
    assert (s + [b])[..|s|] == s;
  }

  /** Putting out `s` and then `t` is putting out `s + t`, and the fires of `t` are found in the flags `s` leaves. */
  lemma {:induction false} VisitAppend(fires: seq<bool>, s: seq<nat>, t: seq<nat>)
    ensures Cleared(Cleared(fires, s), t) == Cleared(fires, s + t)
    ensures AllBurning(s + t, fires) <==> AllBurning(s, fires) && AllBurning(t, Cleared(fires, s))
    decreases |t|
  {
    if t == [] {
      assert s + t == s;
    } else {
      var init := t[..|t| - 1];
      var b := t[|t| - 1];
      VisitAppend(fires, s, init);
      assert t == init + [b];
      assert s + t == (s + init) + [b];
      assert (s + t)[..|s + t| - 1] == s + init;
    }
  }

  /** Stops whose fires are found one after another: any first part of them also has this property. */
  lemma AllBurningPrefix(t: seq<nat>, n: nat, fires: seq<bool>)
    requires n <= |t|
    ensures AllBurning(t, fires) ==> AllBurning(t[..n], fires)
  {
    assert t == t[..n] + t[n..];
    VisitAppend(fires, t[..n], t[n..]);
  }

  /** The stops all burn in turn exactly when they are distinct and all burning at the start. */
  lemma {:induction false} AllBurningDistinct(s: seq<nat>, fires: seq<bool>)
    requires forall k :: 0 <= k < |s| ==> s[k] < |fires|
    ensures AllBurning(s, fires) <==> Distinct(s) && forall k :: 0 <= k < |s| ==> fires[s[k]]
    decreases |s|
  {
    if s != [] {
      var init := s[..|s| - 1];
      var b := s[|s| - 1];
      assert s == init + [b];
      AllBurningDistinct(init, fires);
      ClearedAt(fires, init, b);
      DistinctSnoc(init, b);
      assert (forall k :: 0 <= k < |s| ==> fires[s[k]]) <==> (forall k :: 0 <= k < |init| ==> fires[init[k]]) && fires[b];
    }
  }

  /** Putting out the same buildings, listed in any order, leaves the same flags. */
  lemma ClearedSame(fires: seq<bool>, s: seq<nat>, t: seq<nat>)
    requires multiset(s) == multiset(t)
    ensures Cleared(fires, s) == Cleared(fires, t)
  {
    forall b | 0 <= b < |fires| ensures Cleared(fires, s)[b] == Cleared(fires, t)[b] {
      assert b in s <==> b in multiset(s);
      assert b in t <==> b in multiset(t);
      ClearedAt(fires, s, b);
      ClearedAt(fires, t, b);
    }
  }
}
