/**
  The listener registry shared by `Notifier` and `createNotificationManager`:
  listeners in registration order, a subscription to the source held
  exactly while the list is non-empty, and suppression that keeps the most
  recent event and delivers it on resume. The event type `E` is what the
  two variants hand to their listeners.
 */
module Registries {
  import opened Values

  /** Listener callback `callback`, registered under `token`, called with `event`. */
  datatype Delivery<E> = Delivery(token: nat, callback: nat, event: E)

  /**
    `callbacks[t]` is the callback registered under token `t` and `active[t]`
    the `isActive` flag of its wrapper; `listeners` is the list of wrapper
    tokens, in registration order; `subscribed` says whether the source
    subscription exists; `last` is the event kept while suppressing.
   */
  datatype Registry<E> = Registry(
    callbacks: seq<nat>,
    active: seq<bool>,
    listeners: seq<nat>,
    subscribed: bool,
    suppressing: bool,
    last: Option<E>)

  function Empty<E>(): Registry<E> {
    Registry([], [], [], false, false, None)
  }

  /** No token appears twice in a list. */
  ghost predicate Distinct(ls: seq<nat>) {
    forall i, j | 0 <= i < j < |ls| :: ls[i] != ls[j]
  }

  /**
    The registry's invariant: the list holds exactly the active wrappers,
    each once; the source subscription exists exactly when the list is
    non-empty; an event is kept only while suppressing.
   */
  ghost predicate Valid<E>(r: Registry<E>) {
    && |r.callbacks| == |r.active|
    && (forall i | 0 <= i < |r.listeners| :: r.listeners[i] < |r.active| && r.active[r.listeners[i]])
    && (forall t | 0 <= t < |r.active| && r.active[t] :: t in r.listeners)
    && Distinct(r.listeners)
    && (r.subscribed <==> |r.listeners| > 0)
    && (!r.suppressing ==> r.last.None?)
  }

  lemma EmptyValid<E>()
    ensures Valid(Empty<E>())
  {
  }

  /** `listen(callback)`: adds a new wrapper under a fresh token and makes sure the source subscription exists. */
  function Listen<E>(r: Registry<E>, callback: nat): (res: (Registry<E>, nat))
    ensures var (r', t) := res;
      && t == |r.active| && r'.callbacks == r.callbacks + [callback]
      && r'.listeners == r.listeners + [t] && r'.active == r.active + [true]
      && r'.subscribed
      && r'.suppressing == r.suppressing && r'.last == r.last
    ensures Valid(r) ==> Valid(res.0)
  {
    var t := |r.active|;
    var r' := Registry(r.callbacks + [callback], r.active + [true], r.listeners + [t], true, r.suppressing, r.last);
    assert Valid(r) ==> forall i | 0 <= i < |r.listeners| :: r.listeners[i] < t;
    (r', t)
  }

  /** `indexOf`: the first position of `t` in `ls`, or -1. */
  function IndexOf(ls: seq<nat>, t: nat): (i: int)
    ensures -1 <= i < |ls|
    ensures i >= 0 ==> ls[i] == t && forall j | 0 <= j < i :: ls[j] != t
    ensures i < 0 <==> t !in ls
    decreases |ls|
  {
    if |ls| == 0 then -1
    else if ls[|ls| - 1] == t && IndexOf(ls[..|ls| - 1], t) < 0 then |ls| - 1
    else IndexOf(ls[..|ls| - 1], t)
  }

  /** Removing one entry from a list without repeats leaves the others, without repeats. */
  lemma RemoveAt(ls: seq<nat>, i: nat)
    requires Distinct(ls) && i < |ls|
    ensures var rest := ls[..i] + ls[i + 1..];
      && Distinct(rest) && |rest| == |ls| - 1 && ls[i] !in rest
      && (forall x :: x in rest <==> x in ls && x != ls[i])
  {
    var rest := ls[..i] + ls[i + 1..];
    forall a, b | 0 <= a < b < |rest|
      ensures rest[a] != rest[b]
    {
      var a' := if a < i then a else a + 1;
      var b' := if b < i then b else b + 1;
      assert rest[a] == ls[a'] && rest[b] == ls[b'];
    }
    forall x | x in ls && x != ls[i]
      ensures x in rest
    {
      var k :| 0 <= k < |ls| && ls[k] == x;
      if k < i { assert rest[k] == x; } else { assert rest[k - 1] == x; }
    }
  }

  /**
    The unregister handle of token `t`: deactivates the wrapper, removes it
    from the list if it is there, and drops the source subscription when the
    list becomes empty.
   */
  function Unregister<E>(r: Registry<E>, t: nat): (r': Registry<E>)
    requires t < |r.active|
    ensures r'.callbacks == r.callbacks && r'.active == r.active[t := false]
    ensures r'.suppressing == r.suppressing && r'.last == r.last
    ensures t !in r.listeners ==> r'.listeners == r.listeners && r'.subscribed == r.subscribed
    ensures t in r.listeners ==> |r'.listeners| == |r.listeners| - 1
  {
    var i := IndexOf(r.listeners, t);
    if i >= 0 then
      var rest := r.listeners[..i] + r.listeners[i + 1..];
      Registry(r.callbacks, r.active[t := false], rest, r.subscribed && |rest| > 0, r.suppressing, r.last)
    else
      r.(active := r.active[t := false])
  }

  /** Unregistering keeps the invariant and removes exactly the wrapper of `t` from the list. */
  lemma UnregisterValid<E>(r: Registry<E>, t: nat)
    requires Valid(r) && t < |r.active|
    ensures var r' := Unregister(r, t);
      && Valid(r') && t !in r'.listeners
      && (forall x :: x in r'.listeners <==> x in r.listeners && x != t)
  {
    var i := IndexOf(r.listeners, t);
    var r' := Unregister(r, t);
    if i >= 0 {
      var rest := r.listeners[..i] + r.listeners[i + 1..];
      RemoveAt(r.listeners, i);
      assert r'.listeners == rest;
      forall k | 0 <= k < |rest|
        ensures rest[k] < |r'.active| && r'.active[rest[k]]
      {
        assert rest[k] in r.listeners && rest[k] != t;
      }
    }
  }

  /** Calling an unregister handle a second time changes nothing. */
  lemma UnregisterIdempotent<E>(r: Registry<E>, t: nat)
    requires Valid(r) && t < |r.active|
    ensures Unregister(Unregister(r, t), t) == Unregister(r, t)
  {
    UnregisterValid(r, t);
    var r1 := Unregister(r, t);
    assert IndexOf(r1.listeners, t) < 0;
    assert r1.active[t := false] == r1.active;
  }

  /**
    `notify`: every wrapper in the list, in order, calls its callback when
    its `isActive` flag is still set.
   */
  function Fire<E>(callbacks: seq<nat>, active: seq<bool>, ls: seq<nat>, e: E): (d: seq<Delivery<E>>)
    requires |callbacks| == |active|
    requires forall i | 0 <= i < |ls| :: ls[i] < |active|
    ensures forall i | 0 <= i < |d| :: d[i].token < |active| && active[d[i].token] && d[i].event == e
    ensures (forall i | 0 <= i < |ls| :: active[ls[i]]) ==>
              |d| == |ls| && forall i | 0 <= i < |d| :: d[i] == Delivery(ls[i], callbacks[ls[i]], e)
    decreases |ls|
  {
    if |ls| == 0 then []
    else
      var front := Fire(callbacks, active, ls[..|ls| - 1], e);
      var t := ls[|ls| - 1];
      if active[t] then front + [Delivery(t, callbacks[t], e)] else front
  }

  function Notify<E>(r: Registry<E>, e: E): seq<Delivery<E>>
    requires Valid(r)
  {
    Fire(r.callbacks, r.active, r.listeners, e)
  }

  /** Under the invariant, an event reaches every listed wrapper once, in registration order. */
  lemma NotifyAll<E>(r: Registry<E>, e: E)
    requires Valid(r)
    ensures var d := Notify(r, e);
      |d| == |r.listeners| && forall i | 0 <= i < |d| :: d[i] == Delivery(r.listeners[i], r.callbacks[r.listeners[i]], e)
  {
  }

  /**
    The source's change callback. It only runs while the source subscription
    exists. While suppressing, the event replaces the kept one and nobody
    is called; otherwise all listeners are called, in registration order.
   */
  function OnSource<E>(r: Registry<E>, e: E): (res: (Registry<E>, seq<Delivery<E>>))
    requires Valid(r)
    ensures Valid(res.0)
    ensures !r.subscribed ==> res == (r, [])
    ensures r.subscribed && r.suppressing ==> res.0 == r.(last := Some(e)) && res.1 == []
    ensures r.subscribed && !r.suppressing ==>
      && res.0 == r
      && |res.1| == |r.listeners|
      && forall i | 0 <= i < |res.1| :: res.1[i] == Delivery(r.listeners[i], r.callbacks[r.listeners[i]], e)
  {
    if !r.subscribed then (r, [])
    else if r.suppressing then (r.(last := Some(e)), [])
    else
      NotifyAll(r, e);
      (r, Notify(r, e))
  }

  /**
    `suppress(state)`: sets the flag; turning it off with an event kept
    delivers that event to every listener once and forgets it.
   */
  function Suppress<E>(r: Registry<E>, state: bool): (res: (Registry<E>, seq<Delivery<E>>))
    requires Valid(r)
    ensures Valid(res.0)
    ensures res.0.suppressing == state && res.0.listeners == r.listeners && res.0.subscribed == r.subscribed
    ensures state ==> res.0.last == r.last && res.1 == []
    ensures !state ==> res.0.last.None?
    ensures !state && r.last.None? ==> res.1 == []
    ensures !state && r.last.Some? ==>
      && |res.1| == |r.listeners|
      && forall i | 0 <= i < |res.1| :: res.1[i] == Delivery(r.listeners[i], r.callbacks[r.listeners[i]], r.last.value)
  {
    var r1 := r.(suppressing := state);
    if !state && r.last.Some? then
      var r2 := r1.(last := None);
      NotifyAll(r2, r.last.value);
      (r2, Notify(r2, r.last.value))
    else
      (r1, [])
  }

  /** A wrapper whose handle has been called never fires again. */
  lemma UnregisteredNeverFires<E>(r: Registry<E>, t: nat, e: E)
    requires Valid(r) && t < |r.active|
    ensures Valid(Unregister(r, t))
    ensures var d := OnSource(Unregister(r, t), e).1;
      forall i | 0 <= i < |d| :: d[i].token != t
  {
    UnregisterValid(r, t);
  }
}
