/**
  `Tracker`: the library's view of where the application is: the current
  location with its state unwrapped, the last action, the depth, and
  whether the entry follows a dirty cut. Entries whose cut is "here" are
  not stayed on: the tracker moves one step off them.
 */
module Trackers {
  import opened Values
  import opened Locations
  import opened MetaStates
  import opened Wrapping
  import opened Suppressors
  import opened Histories

  /** The tracked fields, and whether the source subscription exists. */
  datatype Tracker = Tracker(location: Location, action: Action, depth: nat, isAfterDirtyCut: bool, listening: bool)

  /** A new tracker takes the source's location and action as they are. */
  function NewTracker(h: History): (t: Tracker)
    requires Histories.Valid(h)
    ensures t.location == Current(h) && t.action == h.action
    ensures t.depth == 0 && !t.isAfterDirtyCut && !t.listening
  {
    Tracker(Current(h), h.action, 0, false, false)
  }

  /**
    Taking over an entry: its depth, whether its cut is "before", and the
    location with the payload as state. An unwrapped entry counts as the
    initial meta-state and is kept as it is.
   */
  function Adopt(t: Tracker, l: Location, action: Action): (r: Tracker)
    requires Decodable(l.state)
    ensures r.action == action && r.listening == t.listening
    ensures r.location == UnwrapLocation(l)
    ensures IsWrappedLocation(l) ==>
      && r.depth == MetaOf(l.state).value.depth
      && (r.isAfterDirtyCut <==> Prop(Prop(l.state, "meta"), "cut") == BEFORE)
    ensures !IsWrappedLocation(l) ==> r.depth == 0 && !r.isAfterDirtyCut && r.location == l
  {
    var meta := CurrentMeta(l);
    Tracker(UnwrapLocation(l), action, meta.depth, meta.cut == BEFORE, t.listening)
  }

  /** The tracker shows the source's current entry. */
  ghost predicate Synced(t: Tracker, h: History)
    requires Histories.Valid(h)
  {
    && t.location == UnwrapLocation(Current(h))
    && t.depth == CurrentMeta(Current(h)).depth
    && (t.isAfterDirtyCut <==> CurrentMeta(Current(h)).cut == BEFORE)
  }

  /** Whether an entry is a "here" cut the tracker does not stay on while suppression is off. */
  predicate Redirects(l: Location, s: Suppressor)
    requires Decodable(l.state)
  {
    IsWrappedLocation(l) && MetaOf(l.state).value.cut == HERE && !IsActive(s)
  }

  /**
    Which way to leave a "here" entry: back when the tracker was deeper, or
    as deep and after a dirty cut; forward otherwise.
   */
  function RedirectDelta(t: Tracker, meta: MetaState): (d: int)
    ensures d == -1 <==> t.depth > meta.depth || (t.depth == meta.depth && t.isAfterDirtyCut)
    ensures d == 1 <==> !(t.depth > meta.depth || (t.depth == meta.depth && t.isAfterDirtyCut))
  {
    if t.depth > meta.depth || (t.depth == meta.depth && t.isAfterDirtyCut) then -1 else 1
  }

  /** The tracker after an event, with the provider and suppressor after any redirect. */
  datatype Tracked = Tracked(t: Tracker, o: Outcome)

  /**
    `onLocationChanged` for the source's change to its current entry. The
    action is recorded. A "here" entry while not suppressed is left by one
    step under suppression, and the entry landed on is adopted with action
    POP (the tracker hears that step as a suppressed change). Any other
    entry is adopted as it is.
   */
  function OnLocationChanged(t: Tracker, h: History, s: Suppressor): (r: Tracked)
    requires Histories.Valid(h)
    ensures Histories.Valid(r.o.h) && r.o.h.entries == h.entries
    ensures Synced(r.t, r.o.h) && r.t.listening == t.listening
    ensures r.o.s.count == s.count && (Suppressors.Valid(s) ==> Suppressors.Valid(r.o.s))
    ensures !Redirects(Current(h), s) ==>
      && r.o == Outcome(h, s, [])
      && r.t == Adopt(t, Current(h), h.action)
    ensures Redirects(Current(h), s) ==>
      var d := RedirectDelta(t, MetaOf(Current(h).state).value);
      && r.o.steps == [Step(RawGo(d), IsActive(Suppress(s).0))]
      && r.o.h == Histories.Go(h, d)
      && r.t.action == Pop
  {
    var l := Current(h);
    if Redirects(l, s) then
      var d := RedirectDelta(t, MetaOf(l.state).value);
      var (held, token) := Suppress(s);
      var h' := Histories.Go(h, d);
      Tracked(Adopt(t, Current(h'), Pop), Outcome(h', Release(held, token), [Step(RawGo(d), IsActive(held))]))
    else
      Tracked(Adopt(t, l, h.action), Outcome(h, s, []))
  }

  /** An unwrapped entry resets the tracker to depth 0 and keeps the location as delivered. */
  lemma UnwrappedResets(t: Tracker, h: History, s: Suppressor)
    requires Histories.Valid(h) && !IsWrappedLocation(Current(h))
    ensures var r := OnLocationChanged(t, h, s).t;
      r.depth == 0 && !r.isAfterDirtyCut && r.location == Current(h) && r.action == h.action
  {
  }

  /**
    The redirect is decided by the tracked depth: from a "here" entry
    deeper than the tracker the tracker moves forward, from a shallower one
    back.
   */
  lemma RedirectDirection(t: Tracker, h: History, s: Suppressor)
    requires Histories.Valid(h) && Redirects(Current(h), s)
    requires 0 < h.index < |h.entries| - 1
    ensures var meta := MetaOf(Current(h).state).value;
      && (t.depth < meta.depth ==> OnLocationChanged(t, h, s).o.h.index == h.index + 1)
      && (t.depth > meta.depth ==> OnLocationChanged(t, h, s).o.h.index == h.index - 1)
  {
  }

  /**
    `setupLocation`, run by `start`. A wrapped "here" entry is left by one
    step forward and marks the tracker as after a dirty cut, with the depth
    untouched; another wrapped entry is adopted. An unwrapped entry is
    replaced by its wrapped copy when the provider accepts the replace
    (`accepted`); a refusal is ignored.
   */
  function SetupLocation(t: Tracker, env: Env, h: History, s: Suppressor, accepted: bool): (r: Tracked)
    requires Histories.Valid(h) && Decodable(t.location.state)
    ensures Histories.Valid(r.o.h) && r.o.s == s
    ensures r.t.listening == t.listening && r.t.action == t.action
    ensures IsWrappedLocation(t.location) && MetaOf(t.location.state).value.cut == HERE ==>
      && r.o == Outcome(Histories.Go(h, 1), s, [Step(RawGo(1), IsActive(s))])
      && r.t.location == UnwrapLocation(Current(r.o.h))
      && r.t.depth == t.depth && r.t.isAfterDirtyCut
    ensures IsWrappedLocation(t.location) && MetaOf(t.location.state).value.cut != HERE ==>
      && r.o == Outcome(h, s, [])
      && r.t == Adopt(t, t.location, t.action)
    ensures !IsWrappedLocation(t.location) ==>
      && r.t == t
      && (!accepted ==> r.o == Outcome(h, s, []))
      && (accepted ==>
            && r.o.steps == [Step(RawReplace(DescriptorDest(ToDescriptor(WrapLocation(t.location)))), IsActive(s))]
            && r.o.h.index == h.index
            && IsWrappedLocation(Current(r.o.h))
            && DataOf(Current(r.o.h).state) == t.location.state
            && MetaOf(Current(r.o.h).state) == Some(InitialMetaState()))
  {
    if IsWrappedLocation(t.location) then
      var meta := MetaOf(t.location.state).value;
      if meta.cut == HERE then
        var h' := Histories.Go(h, 1);
        Tracked(t.(location := UnwrapLocation(Current(h')), isAfterDirtyCut := true),
                Outcome(h', s, [Step(RawGo(1), IsActive(s))]))
      else
        Tracked(Adopt(t, t.location, t.action), Outcome(h, s, []))
    else if accepted then
      var dest := DescriptorDest(ToDescriptor(WrapLocation(t.location)));
      var h' := Histories.Replace(h, env, dest);
      assert Current(h') == NewEntry(env, dest);
      Tracked(t, Outcome(h', s, [Step(RawReplace(dest), IsActive(s))]))
    else
      Tracked(t, Outcome(h, s, []))
  }

  /** `start`: sets the location up and subscribes, unless already subscribed. */
  function Start(t: Tracker, env: Env, h: History, s: Suppressor, accepted: bool): (r: Tracked)
    requires Histories.Valid(h) && Decodable(t.location.state)
    ensures r.t.listening
    ensures r.o == SetupLocation(t, env, h, s, accepted).o
    ensures r.t.(listening := t.listening) == SetupLocation(t, env, h, s, accepted).t
  {
    var setUp := SetupLocation(t, env, h, s, accepted);
    Tracked(setUp.t.(listening := true), setUp.o)
  }

  /** `stop`: drops the subscription, if any. */
  function Stop(t: Tracker): (r: Tracker)
    ensures !r.listening
    ensures r.(listening := t.listening) == t
  {
    t.(listening := false)
  }

  /** Stopping twice is the same as stopping once; stopping after a start keeps what the setup tracked. */
  lemma StartStop(t: Tracker, env: Env, h: History, s: Suppressor, accepted: bool)
    requires Histories.Valid(h) && Decodable(t.location.state)
    ensures Stop(Stop(t)) == Stop(t)
    ensures Stop(Start(t, env, h, s, accepted).t) == Stop(SetupLocation(t, env, h, s, accepted).t)
  {
  }
}
