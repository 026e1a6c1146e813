/**
  `Notifier`: the listener registry of the library's own history object.
  Its events are a location with the action that produced it; the
  location is handed on as the source delivered it.
 */
module Notifiers {
  import opened Values
  import opened Locations
  import opened Registries

  /** What a notifier listener is called with. */
  datatype Change = Change(location: Location, action: Action)

  type Notifier = Registry<Change>

  /**
    The source's change callback of a notifier: while suppressing, the
    location and action are kept together and replace any earlier pair;
    otherwise every listener gets them, in registration order.
   */
  function OnSourceLocationChanged(n: Notifier, location: Location, action: Action): (res: (Notifier, seq<Delivery<Change>>))
    requires Valid(n)
    ensures Valid(res.0)
    ensures n.subscribed && n.suppressing ==> res.0.last == Some(Change(location, action)) && res.1 == []
    ensures n.subscribed && !n.suppressing ==>
      && |res.1| == |n.listeners|
      && forall i | 0 <= i < |res.1| :: res.1[i].event.location == location && res.1[i].event.action == action
  {
    OnSource(n, Change(location, action))
  }

  /** The same callback registered twice has two registrations, under two tokens. */
  lemma ListenedTwice(callback: nat)
    ensures var (n1, t1) := Listen(Empty<Change>(), callback);
      var (n2, t2) := Listen(n1, callback);
      && t1 == 0 && t2 == 1
      && n2 == Registry([callback, callback], [true, true], [0, 1], true, false, None)
      && Valid(n2)
  {
    EmptyValid<Change>();
  }

  /** The same callback registered twice is called twice per event. */
  lemma RegisteredTwice(callback: nat, e: Change)
    ensures var (n1, t1) := Listen(Empty<Change>(), callback);
      var (n2, t2) := Listen(n1, callback);
      && Valid(n2) && t1 != t2
      && OnSource(n2, e).1 == [Delivery(t1, callback, e), Delivery(t2, callback, e)]
  {
    ListenedTwice(callback);
    var n2: Notifier := Registry([callback, callback], [true, true], [0, 1], true, false, None);
    NotifyAll(n2, e);
  }

  /**
    Of a callback registered twice, the first handle, called twice, removes
    one registration: the callback is still called once per event.
   */
  lemma FirstHandleTwice(callback: nat, e: Change)
    ensures var (n1, t1) := Listen(Empty<Change>(), callback);
      var (n2, t2) := Listen(n1, callback);
      && Valid(n2) && t1 < |n2.active|
      && Unregister(Unregister(n2, t1), t1) == Unregister(n2, t1)
      && Valid(Unregister(n2, t1))
      && OnSource(Unregister(n2, t1), e).1 == [Delivery(t2, callback, e)]
  {
    ListenedTwice(callback);
    var n2: Notifier := Registry([callback, callback], [true, true], [0, 1], true, false, None);
    assert IndexOf(n2.listeners, 0) == 0;
    var n3 := Unregister(n2, 0);
    assert n3 == n2.(active := [false, true], listeners := [1]);
    UnregisterIdempotent(n2, 0);
    UnregisterValid(n2, 0);
    NotifyAll(n3, e);
    assert Notify(n3, e) == [Delivery(1, callback, e)];
  }

  /** Once both handles of a callback registered twice are called, no source subscription remains. */
  lemma BothHandlesUnsubscribe(callback: nat)
    ensures var (n1, t1) := Listen(Empty<Change>(), callback);
      var (n2, t2) := Listen(n1, callback);
      && t1 < |n2.active| && t2 < |Unregister(n2, t1).active|
      && !Unregister(Unregister(n2, t1), t2).subscribed
  {
    ListenedTwice(callback);
    var n2: Notifier := Registry([callback, callback], [true, true], [0, 1], true, false, None);
    assert 0 in n2.listeners && 1 in n2.listeners;
    UnregisterValid(n2, 0);
    var n3 := Unregister(n2, 0);
    assert |n3.listeners| == 1 && 1 in n3.listeners;
    UnregisterValid(n3, 1);
    assert |Unregister(n3, 1).listeners| == 0;
  }

  /**
    An event that arrives while suppressing reaches nobody until
    suppression ends, and then reaches every listener once.
   */
  lemma DeferredWhileSuppressed(callback: nat, e: Change)
    ensures var n1 := Listen(Empty<Change>(), callback).0;
      var n2 := Suppress(n1, true).0;
      && Valid(n2)
      && OnSource(n2, e).1 == []
      && Suppress(OnSource(n2, e).0, false).1 == [Delivery(0, callback, e)]
      && Suppress(Suppress(OnSource(n2, e).0, false).0, false).1 == []
  {
    EmptyValid<Change>();
  }
}
