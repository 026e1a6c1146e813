/**
  `createNotificationManager`: the closure-based twin of `Notifier`. Its
  listeners get a frozen location holding pathname, search and hash only.
 */
module NotificationManagers {
  import opened Values
  import opened Locations
  import opened Registries

  /** The location handed to a manager listener. */
  datatype PlainLocation = PlainLocation(pathname: string, search: string, hash: string)

  type NotificationManager = Registry<PlainLocation>

  /** The three position fields of a full location. */
  function Plain(full: Location): PlainLocation {
    PlainLocation(full.pathname, full.search, full.hash)
  }

  /** Two locations look the same to a manager listener exactly when they agree on pathname, search and hash. */
  lemma PlainForgets(a: Location, b: Location)
    ensures Plain(a) == Plain(b) <==> a.pathname == b.pathname && a.search == b.search && a.hash == b.hash
  {
  }

  /**
    The history callback: the full location is cut down to its position
    fields; while suppressed it is kept in place of any earlier one,
    otherwise it goes to every listener, in registration order.
   */
  function OnHistoryChanged(m: NotificationManager, full: Location): (res: (NotificationManager, seq<Delivery<PlainLocation>>))
    requires Valid(m)
    ensures Valid(res.0)
    ensures forall i | 0 <= i < |res.1| ::
      && res.1[i].event.pathname == full.pathname
      && res.1[i].event.search == full.search
      && res.1[i].event.hash == full.hash
    ensures !m.subscribed || m.suppressing ==> res.1 == []
    ensures m.subscribed && m.suppressing ==> res.0.last == Some(Plain(full))
    ensures m.subscribed && !m.suppressing ==> |res.1| == |m.listeners| && res.0 == m
  {
    OnSource(m, Plain(full))
  }

  /**
    Two events while suppressed: resuming delivers only the second one,
    once to each listener.
   */
  lemma OnlyLastKept(m: NotificationManager, a: Location, b: Location)
    requires Valid(m) && m.subscribed && m.suppressing
    ensures var m1 := OnHistoryChanged(m, a).0;
      var m2 := OnHistoryChanged(m1, b).0;
      var d := Suppress(m2, false).1;
      && |d| == |m.listeners|
      && forall i | 0 <= i < |d| :: d[i].event == Plain(b)
  {
  }
}
