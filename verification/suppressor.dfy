/**
  The reference-counted suppression gate. Every `suppress()` call hands out
  a release token; a token works once and is inert afterwards.
 */
module Suppressors {

  /**
    `count` is the counter; `live[t]` is the `isActive` flag captured by the
    release function of token `t` (tokens are numbered in issue order).
   */
  datatype Suppressor = Suppressor(count: int, live: seq<bool>)

  /** The number of tokens not yet released. */
  function LiveCount(live: seq<bool>): nat {
    if |live| == 0 then 0 else LiveCount(live[..|live| - 1]) + (if live[|live| - 1] then 1 else 0)
  }

  /** The counter equals the number of issued, unreleased tokens. */
  predicate Valid(s: Suppressor) {
    s.count == LiveCount(s.live)
  }

  function NewSuppressor(): (s: Suppressor)
    ensures Valid(s) && !IsActive(s)
  {
    Suppressor(0, [])
  }

  /** `isActive`. */
  predicate IsActive(s: Suppressor) {
    s.count > 0
  }

  /**
    `suppress()`: raises the counter by one and issues a fresh token, the
    next in issue order, which is live.
   */
  function Suppress(s: Suppressor): (r: (Suppressor, nat))
    ensures r.0.count == s.count + 1
    ensures r.1 == |s.live| && |r.0.live| == |s.live| + 1
    ensures r.0.live[..|s.live|] == s.live && r.0.live[r.1]
    ensures Valid(s) ==> Valid(r.0) && IsActive(r.0)
  {
    var r := Suppressor(s.count + 1, s.live + [true]);
    assert r.live[..|s.live|] == s.live;
    (r, |s.live|)
  }

  /** Clearing a live flag removes exactly one from the live count. */
  lemma {:induction false} LiveCountClear(live: seq<bool>, t: nat)
    requires t < |live| && live[t]
    ensures LiveCount(live[t := false]) == LiveCount(live) - 1
    decreases |live|
  {
    var n := |live| - 1;
    if t < n {
      assert live[t := false][..n] == live[..n][t := false];
      LiveCountClear(live[..n], t);
    } else {
      assert live[t := false][..n] == live[..n];
    }
  }

  /**
    Calling release function `t`: the first call lowers the counter by one
    and marks the token released; any later call changes nothing.
   */
  function Release(s: Suppressor, t: nat): (r: Suppressor)
    requires t < |s.live|
    ensures s.live[t] ==> r.count == s.count - 1 && r.live == s.live[t := false]
    ensures !s.live[t] ==> r == s
    ensures Valid(s) ==> Valid(r)
  {
    if s.live[t] then
      LiveCountClear(s.live, t);
      Suppressor(s.count - 1, s.live[t := false])
    else
      s
  }

  /** The counter of a consistent suppressor is never negative. */
  lemma CountNonNegative(s: Suppressor)
    requires Valid(s)
    ensures s.count >= 0
  {
  }

  /** Releasing a token twice is the same as releasing it once. */
  lemma ReleaseIdempotent(s: Suppressor, t: nat)
    requires t < |s.live|
    ensures Release(Release(s, t), t) == Release(s, t)
  {
  }

  /** Calls the release functions of `order`, in that order. */
  function ReleaseAll(s: Suppressor, order: seq<nat>): (r: Suppressor)
    requires forall i | 0 <= i < |order| :: order[i] < |s.live|
    ensures |r.live| == |s.live|
    ensures Valid(s) ==> Valid(r)
    decreases |order|
  {
    if |order| == 0 then s else ReleaseAll(Release(s, order[0]), order[1..])
  }

  /** A token that is not live stays released whatever else is released. */
  lemma {:induction false} ReleasedStaysReleased(s: Suppressor, order: seq<nat>, t: nat)
    requires forall i | 0 <= i < |order| :: order[i] < |s.live|
    requires t < |s.live| && (!s.live[t] || t in order)
    ensures !ReleaseAll(s, order).live[t]
    decreases |order|
  {
    if |order| > 0 {
      var s1 := Release(s, order[0]);
      assert !s1.live[t] || t in order[1..];
      ReleasedStaysReleased(s1, order[1..], t);
    }
  }

  /** Once every issued token has been released, in any order, the gate is inactive. */
  lemma AllReleasedInactive(s: Suppressor, order: seq<nat>)
    requires Valid(s)
    requires forall i | 0 <= i < |order| :: order[i] < |s.live|
    requires forall t | 0 <= t < |s.live| :: t in order
    ensures !IsActive(ReleaseAll(s, order))
  {
    var r := ReleaseAll(s, order);
    forall t | 0 <= t < |s.live|
      ensures !r.live[t]
    {
      ReleasedStaysReleased(s, order, t);
    }
    NoneLive(r.live);
  }

  /** A flag sequence with no live flag has live count zero. */
  lemma {:induction false} NoneLive(live: seq<bool>)
    requires forall t | 0 <= t < |live| :: !live[t]
    ensures LiveCount(live) == 0
    decreases |live|
  {
    if |live| > 0 {
      NoneLive(live[..|live| - 1]);
    }
  }
}
