/**
  `Mutator`: runs one raw navigation at a time and settles its promise when
  the provider reports the change, or rejects it when the provider blocked
  the change. Promises are numbered in creation order.
 */
module Mutators {
  import opened Values
  import opened Locations
  import opened MetaStates
  import opened Wrapping
  import opened NextMeta
  import opened Histories

  /** The errors a mutator promise can be rejected with. */
  datatype MutatorError = ConcurrentNavigation | NavigationBlocked

  /** A promise's state; a rejection carries its reason, or None when rejected without one. */
  datatype Settlement = Pending | Resolved | Rejected(reason: Option<MutatorError>)

  /**
    `current` is the promise whose reject function is stored (the
    `currentRejectFunc` slot); `promises[i]` is the state of promise `i`;
    `listening` holds, in subscription order, the promises whose one-shot
    source listener is still subscribed.
   */
  datatype Mutator = Mutator(current: Option<nat>, promises: seq<Settlement>, listening: seq<nat>)

  function NewMutator(): Mutator {
    Mutator(None, [], [])
  }

  /**
    At most one promise is pending, and it is the one in the slot; every
    subscribed listener belongs to an existing promise, and the slot's
    promise is still listening.
   */
  ghost predicate Valid(m: Mutator) {
    && (forall i | 0 <= i < |m.listening| :: m.listening[i] < |m.promises|)
    && (m.current.Some? ==> m.current.value < |m.promises| && m.current.value in m.listening)
    && (forall p | 0 <= p < |m.promises| :: m.promises[p] == Pending <==> m.current == Some(p))
  }

  lemma NewMutatorValid()
    ensures Valid(NewMutator())
  {
  }

  /** Under the invariant no two promises are pending at once. */
  lemma AtMostOnePending(m: Mutator, p: nat, q: nat)
    requires Valid(m) && p < |m.promises| && q < |m.promises|
    requires m.promises[p] == Pending && m.promises[q] == Pending
    ensures p == q
  {
  }

  /** The outcome of `update`: the new promise's number, and whether its raw action ran. */
  datatype Update = Update(m: Mutator, promise: nat, accepted: bool)

  /**
    `update(action)`: a new promise is created. While another update holds
    the slot it is rejected at once for concurrent navigation and nothing
    else changes; otherwise it takes the slot and subscribes its listener
    before the raw action runs.
   */
  function StartUpdate(m: Mutator): (u: Update)
    ensures u.promise == |m.promises| && |u.m.promises| == |m.promises| + 1
    ensures u.m.promises[..|m.promises|] == m.promises
    ensures u.accepted <==> m.current.None?
    ensures !u.accepted ==>
      && u.m.promises[u.promise] == Rejected(Some(ConcurrentNavigation))
      && u.m.current == m.current && u.m.listening == m.listening
    ensures u.accepted ==>
      && u.m.promises[u.promise] == Pending
      && u.m.current == Some(u.promise)
      && u.m.listening == m.listening + [u.promise]
    ensures Valid(m) ==> Valid(u.m)
  {
    var id := |m.promises|;
    if m.current.Some? then
      var r := Mutator(m.current, m.promises + [Rejected(Some(ConcurrentNavigation))], m.listening);
      assert r.promises[..id] == m.promises;
      Update(r, id, false)
    else
      var r := Mutator(Some(id), m.promises + [Pending], m.listening + [id]);
      assert r.promises[..id] == m.promises;
      Update(r, id, true)
  }

  /** Settling an already settled promise does nothing. */
  function Settle(s: Settlement, to: Settlement): Settlement {
    if s == Pending then to else s
  }

  /** Resolves every promise in `ids`. */
  function ResolveAll(promises: seq<Settlement>, ids: seq<nat>): (r: seq<Settlement>)
    ensures |r| == |promises|
    ensures forall p | 0 <= p < |promises| ::
      r[p] == (if p in ids then Settle(promises[p], Resolved) else promises[p])
    decreases |ids|
  {
    if |ids| == 0 then promises
    else
      var rest := ResolveAll(promises, ids[1..]);
      if ids[0] < |rest| then rest[ids[0] := Settle(rest[ids[0]], Resolved)] else rest
  }

  /**
    Whether an update listener lets an event pass without settling: only
    when suppression is off and the new location is wrapped with a "here"
    cut, which the tracker is about to redirect.
   */
  predicate WillRedirect(suppressed: bool, l: Location)
    requires Decodable(l.state)
  {
    !suppressed && IsWrappedLocation(l) && Prop(Prop(l.state, "meta"), "cut") == HERE
  }

  /**
    A source event reaching the subscribed update listeners. Unless the
    event will be redirected, every listener unsubscribes and resolves its
    promise, and the slot is cleared.
   */
  function OnLocation(m: Mutator, suppressed: bool, l: Location): (r: Mutator)
    requires Decodable(l.state)
    ensures WillRedirect(suppressed, l) ==> r == m
    ensures !WillRedirect(suppressed, l) ==>
      && r.current.None? && r.listening == []
      && |r.promises| == |m.promises|
      && (forall p | 0 <= p < |m.promises| && p in m.listening :: r.promises[p] != Pending)
      && (forall p | 0 <= p < |m.promises| && p !in m.listening :: r.promises[p] == m.promises[p])
    ensures !WillRedirect(suppressed, l) && Valid(m) ==>
      forall p | 0 <= p < |m.promises| && m.promises[p] == Pending :: r.promises[p] == Resolved
    ensures Valid(m) ==> Valid(r)
  {
    if WillRedirect(suppressed, l) then m
    else Mutator(None, ResolveAll(m.promises, m.listening), [])
  }

  /** While suppressed, any event settles the pending update. */
  lemma SuppressedEventResolves(m: Mutator, l: Location)
    requires Valid(m) && Decodable(l.state) && m.current.Some?
    ensures OnLocation(m, true, l).promises[m.current.value] == Resolved
    ensures OnLocation(m, true, l).current.None?
  {
  }

  /**
    `changeWasBlocked` as written: the stored reject function ignores the
    error it is given and rejects without a reason; the slot is cleared but
    the listener stays subscribed.
   */
  function ChangeWasBlockedAsWritten(m: Mutator): (r: Mutator)
    ensures m.current.None? ==> r == m
    ensures m.current.Some? && m.current.value < |m.promises| ==>
      && r.current.None? && r.listening == m.listening
      && r.promises == m.promises[m.current.value := Settle(m.promises[m.current.value], Rejected(None))]
    ensures Valid(m) ==> Valid(r)
  {
    if m.current.Some? && m.current.value < |m.promises| then
      var p := m.current.value;
      Mutator(None, m.promises[p := Settle(m.promises[p], Rejected(None))], m.listening)
    else if m.current.Some? then m.(current := None)
    else m
  }

  /** A blocked update's promise ends up rejected with no reason at all. */
  lemma BlockedReasonLost(m: Mutator)
    requires Valid(m) && m.current.Some?
    ensures ChangeWasBlockedAsWritten(m).promises[m.current.value] == Rejected(None)
  {
  }

  /**
    `changeWasBlocked` with the evidently intended effect: the pending
    update is rejected with the "navigation was blocked" error. With no
    update pending nothing happens.
   */
  function ChangeWasBlocked(m: Mutator): (r: Mutator)
    ensures m.current.None? ==> r == m
    ensures m.current.Some? && m.current.value < |m.promises| ==>
      && r.current.None? && r.listening == m.listening
      && r.promises == m.promises[m.current.value := Settle(m.promises[m.current.value], Rejected(Some(NavigationBlocked)))]
    ensures Valid(m) ==> Valid(r)
  {
    if m.current.Some? && m.current.value < |m.promises| then
      var p := m.current.value;
      Mutator(None, m.promises[p := Settle(m.promises[p], Rejected(Some(NavigationBlocked)))], m.listening)
    else if m.current.Some? then m.(current := None)
    else m
  }

  /** The corrected rejection carries the blocking error, and the rejected update's listener stays subscribed. */
  lemma BlockedReasonKept(m: Mutator)
    requires Valid(m) && m.current.Some?
    ensures ChangeWasBlocked(m).promises[m.current.value] == Rejected(Some(NavigationBlocked))
    ensures m.current.value in ChangeWasBlocked(m).listening
  {
  }

  /**
    A blocked update's listener is still subscribed: the next event, after a
    new update has taken the slot, settles the new promise and leaves the
    rejected one rejected.
   */
  lemma StaleListenerHarmless(m: Mutator, l: Location)
    requires Valid(m) && m.current.Some? && Decodable(l.state)
    ensures var b := ChangeWasBlocked(m);
      var u := StartUpdate(b);
      && u.accepted
      && OnLocation(u.m, true, l).promises[m.current.value] == Rejected(Some(NavigationBlocked))
      && OnLocation(u.m, true, l).promises[u.promise] == Resolved
  {
  }

  /** What `push`/`replace` are given: a path with an optional state, or a partial location. */
  datatype Target = PathTarget(path: string, state: Value) | DescriptorTarget(d: Descriptor)

  /** The state the caller asked to store. */
  function CallerState(t: Target): Value {
    match t
    case PathTarget(_, state) => state
    case DescriptorTarget(d) => d.state
  }

  /**
    The raw call `push`/`replace` makes for a target: a path goes with a
    state built by `nextState`, a descriptor is completed by `nextLocation`;
    both use the source's current entry.
   */
  function Destine(current: Location, createHref: Location -> string, action: Action, t: Target, limit: int): (d: Destination)
    requires Decodable(current.state)
    ensures d.PathDest? <==> t.PathTarget?
    ensures t.PathTarget? ==> d.path == t.path
    ensures t.DescriptorTarget? ==>
      && d.d.hash == t.d.hash && d.d.key == t.d.key
      && d.d.pathname == t.d.pathname && d.d.search == t.d.search
    ensures Decodable(StateOf(d)) && IsWrappedState(StateOf(d))
    ensures DataOf(StateOf(d)) == CallerState(t)
    ensures MetaOf(StateOf(d)) == Some(NextMetaState(current, createHref, action, limit))
  {
    match t
    case PathTarget(path, state) => PathDest(path, NextState(current, createHref, action, state, limit))
    case DescriptorTarget(d) => DescriptorDest(NextLocation(current, createHref, action, d, limit))
  }

  /** `push`: the raw push of the destination `Destine` builds for a push. */
  function PushCall(h: History, env: Env, t: Target, limit: int): (c: RawCall)
    requires Histories.Valid(h)
    ensures c.RawPush? && c.dest == Destine(Current(h), env.createHref, Push, t, limit)
  {
    RawPush(Destine(Current(h), env.createHref, Push, t, limit))
  }

  /** `replace`: the raw replace of the destination `Destine` builds for a replace. */
  function ReplaceCall(h: History, env: Env, t: Target, limit: int): (c: RawCall)
    requires Histories.Valid(h)
    ensures c.RawReplace? && c.dest == Destine(Current(h), env.createHref, Replace, t, limit)
  {
    RawReplace(Destine(Current(h), env.createHref, Replace, t, limit))
  }

  /** A replace made through the mutator stores the caller's state in the current entry. */
  lemma MutatorReplaceStores(h: History, env: Env, t: Target, limit: int)
    requires Histories.Valid(h)
    ensures var d := ReplaceCall(h, env, t, limit).dest;
      && Histories.Replace(h, env, d).index == h.index
      && DataOf(Current(Histories.Replace(h, env, d)).state) == CallerState(t)
      && MetaOf(Current(Histories.Replace(h, env, d)).state) == Some(NextMetaState(Current(h), env.createHref, Replace, limit))
  {
    var d := ReplaceCall(h, env, t, limit).dest;
    assert Current(Histories.Replace(h, env, d)) == NewEntry(env, d);
  }

  /**
    A push made through the mutator keeps a consistent history consistent,
    and the new entry carries the caller's state.
   */
  lemma MutatorPushKeepsConsistent(h: History, env: Env, t: Target, limit: int)
    requires Histories.Valid(h) && Consistent(env, h)
    ensures var d := PushCall(h, env, t, limit).dest;
      && Consistent(env, Histories.Push(h, env, d))
      && DataOf(Current(Histories.Push(h, env, d)).state) == CallerState(t)
  {
    var d := PushCall(h, env, t, limit).dest;
    var cur := CurrentMeta(Current(h));
    var m := NextMetaState(Current(h), env.createHref, Push, limit);
    assert m.cache == (cur.cache + [env.createHref(Current(h))])[|cur.cache| + 1 - |m.cache|..];
    PushKeepsConsistent(env, h, d, m);
  }

  /** A replace made through the mutator keeps a consistent history consistent. */
  lemma MutatorReplaceKeepsConsistent(h: History, env: Env, t: Target, limit: int)
    requires Histories.Valid(h) && Consistent(env, h)
    ensures var d := ReplaceCall(h, env, t, limit).dest;
      && Consistent(env, Histories.Replace(h, env, d))
      && DataOf(Current(Histories.Replace(h, env, d)).state) == CallerState(t)
  {
    var d := ReplaceCall(h, env, t, limit).dest;
    var cur := CurrentMeta(Current(h));
    var m := NextMetaState(Current(h), env.createHref, Replace, limit);
    ReplaceKeepsConsistent(env, h, d, m);
  }
}
