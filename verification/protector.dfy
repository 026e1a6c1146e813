/**
  `Protector`: guards the public operations against overlap and against
  use after dispose. An operation enters (refused when another one is
  running, or after dispose unless it may run then), runs, and exits
  (optionally moving to a new idle status and waking whoever waits for
  idleness). An asynchronous operation in "ready" mode first starts the
  tracker if it is not running yet.
 */
module Protectors {
  import opened Values

  datatype IdleStatus = Created | Ready | Disposed
  datatype Status = Busy | Idle(idle: IdleStatus)
  /** The `mode` argument of `sync` and `async`. */
  datatype Mode = ReadyMode | IdleMode | AnyMode
  datatype ProtectorError = Concurrent | AfterDispose

  /** `waiters` are the `whenIdle` resolvers, by number, in registration order. */
  datatype Protector = Protector(busy: bool, idle: IdleStatus, waiters: seq<nat>)

  function NewProtector(): (p: Protector)
    ensures StatusOf(p) == Idle(Created) && p.waiters == []
  {
    Protector(false, Created, [])
  }

  /** `status`: busy while an operation runs, else the idle status. */
  function StatusOf(p: Protector): (r: Status)
    ensures r == Busy <==> p.busy
    ensures !p.busy ==> r.idle == p.idle
  {
    if p.busy then Busy else Idle(p.idle)
  }

  /** The result of `enter`: the protector after it, or the error it throws. */
  datatype Entered = Entered(p: Protector) | Refused(e: ProtectorError)

  /**
    `enter`: refused with "concurrent operation" while busy (checked
    first), with "after dispose" once disposed unless `ignoreDisposed`;
    otherwise the protector becomes busy. A refusal changes nothing.
   */
  function Enter(p: Protector, ignoreDisposed: bool): (r: Entered)
    ensures r.Refused? <==> p.busy || (p.idle == Disposed && !ignoreDisposed)
    ensures r.Refused? ==> (r.e == Concurrent <==> p.busy)
    ensures r.Entered? ==> r.p == p.(busy := true) && StatusOf(r.p) == Busy
  {
    if p.busy then Refused(Concurrent)
    else if p.idle == Disposed && !ignoreDisposed then Refused(AfterDispose)
    else Entered(p.(busy := true))
  }

  /** The protector after `exit`, and the resolvers it calls, in order. */
  datatype Exited = Exited(p: Protector, woken: seq<nat>)

  /**
    `exit`: the idle status becomes `next` (the `then` argument) when one is given, the
    protector is no longer busy, and every resolver ever registered is
    called. The list is not emptied, so earlier resolvers are called again.
   */
  function Exit(p: Protector, next: Option<IdleStatus>): (r: Exited)
    ensures !r.p.busy && r.p.waiters == p.waiters && r.woken == p.waiters
    ensures next.Some? ==> StatusOf(r.p) == Idle(next.value)
    ensures next.None? ==> StatusOf(r.p) == Idle(p.idle)
  {
    var idle := if next.Some? then next.value else p.idle;
    Exited(Protector(false, idle, p.waiters), p.waiters)
  }

  /** The protector after `whenIdle`, and whether the promise resolved at once. */
  datatype Waiting = Waiting(p: Protector, resolvedNow: bool)

  /** `whenIdle`: resolves at once when idle, else registers `resolver` for the next exit. */
  function WhenIdle(p: Protector, resolver: nat): (r: Waiting)
    ensures r.resolvedNow <==> !p.busy
    ensures r.resolvedNow ==> r.p == p
    ensures !r.resolvedNow ==> r.p == p.(waiters := p.waiters + [resolver])
  {
    if p.busy then Waiting(p.(waiters := p.waiters + [resolver]), false) else Waiting(p, true)
  }

  /**
    What a protected call did: the protector afterwards, the error thrown
    by `enter` if any, whether the tracker was started, whether the wrapped
    function ran, and the resolvers woken by `exit`.
   */
  datatype Call = Call(p: Protector, refused: Option<ProtectorError>, startedTracker: bool, ran: bool, woken: seq<nat>)

  /**
    A `sync` wrapper called with the protector idle or busy: a refused
    enter throws before the `try`, so nothing runs and `exit` is not
    reached; otherwise the function runs and `exit(then)` follows whether
    it returns or throws.
   */
  function Sync(p: Protector, mode: Mode, next: Option<IdleStatus>): (r: Call)
    ensures !r.startedTracker
    ensures r.ran <==> Enter(p, mode == AnyMode).Entered?
    ensures !r.ran ==> r.p == p && r.woken == [] && r.refused == Some(Enter(p, mode == AnyMode).e)
    ensures r.ran ==> r.refused == None && !r.p.busy && r.woken == p.waiters
    ensures r.ran ==> r.p.idle == (if next.Some? then next.value else p.idle)
  {
    match Enter(p, mode == AnyMode)
    case Refused(e) => Call(p, Some(e), false, false, [])
    case Entered(q) =>
      var out := Exit(q, next);
      Call(out.p, None, false, true, out.woken)
  }

  /**
    The first half of an `async` wrapper, up to the wrapped function's
    promise. After a successful enter, "ready" mode with the tracker not
    running starts it; when the start succeeds (`startOk`) the idle status
    becomes Ready, and when it throws the function does not run. The
    protector stays busy until `AsyncExit`, unless the enter was refused.
   */
  function AsyncEnter(p: Protector, mode: Mode, trackerReady: bool, startOk: bool): (r: Call)
    ensures r.woken == []
    ensures r.refused.Some? <==> Enter(p, mode == AnyMode).Refused?
    ensures r.refused.Some? ==> r.p == p && !r.ran && !r.startedTracker
    ensures r.refused.None? ==> r.p.busy && r.p.waiters == p.waiters
    ensures r.refused.None? ==> (r.startedTracker <==> mode == ReadyMode && !trackerReady)
    ensures r.refused.None? ==> (r.ran <==> !r.startedTracker || startOk)
    ensures r.refused.None? && r.startedTracker && startOk ==> r.p.idle == Ready
    ensures r.refused.None? && !(r.startedTracker && startOk) ==> r.p.idle == p.idle
  {
    match Enter(p, mode == AnyMode)
    case Refused(e) => Call(p, Some(e), false, false, [])
    case Entered(q) =>
      if mode == ReadyMode && !trackerReady then
        if startOk then Call(q.(idle := Ready), None, true, true, [])
        else Call(q, None, true, false, [])
      else Call(q, None, false, true, [])
  }

  /** The `finally` of an `async` wrapper: `exit(then)`, whether the function resolved or rejected. */
  function AsyncExit(p: Protector, next: Option<IdleStatus>): (r: Call)
    ensures !r.p.busy && r.refused == None && r.woken == p.waiters
    ensures r.p == Exit(p, next).p
  {
    var out := Exit(p, next);
    Call(out.p, None, false, false, out.woken)
  }

  /**
    While an asynchronous operation is pending every other protected call
    is refused as concurrent and leaves the protector alone, and a
    `whenIdle` made meanwhile is resolved by the closing exit.
   */
  lemma NoOverlap(p: Protector, mode: Mode, trackerReady: bool, startOk: bool,
                  other: Mode, next: Option<IdleStatus>, resolver: nat)
    requires AsyncEnter(p, mode, trackerReady, startOk).refused.None?
    ensures var q := AsyncEnter(p, mode, trackerReady, startOk).p;
      && Sync(q, other, next) == Call(q, Some(Concurrent), false, false, [])
      && AsyncEnter(q, other, trackerReady, startOk) == Call(q, Some(Concurrent), false, false, [])
      && resolver in AsyncExit(WhenIdle(q, resolver).p, next).woken
  {
    var q := AsyncEnter(p, mode, trackerReady, startOk).p;
    assert WhenIdle(q, resolver).p.waiters[|q.waiters|] == resolver;
  }

  /**
    Dispose is final for guarded calls: once the idle status is Disposed,
    only "any" mode calls run, and a call without a `then` keeps it
    Disposed.
   */
  lemma DisposedStaysDisposed(p: Protector, mode: Mode, next: Option<IdleStatus>)
    requires !p.busy && p.idle == Disposed
    ensures Sync(p, mode, next).ran <==> mode == AnyMode
    ensures mode != AnyMode ==> Sync(p, mode, next).refused == Some(AfterDispose)
    ensures next.None? ==> StatusOf(Sync(p, mode, next).p) == Idle(Disposed)
  {
  }

  /** An idle protector that is not disposed runs a call in every mode and is idle again afterwards. */
  lemma IdleRuns(p: Protector, mode: Mode, next: Option<IdleStatus>)
    requires !p.busy && p.idle != Disposed
    ensures Sync(p, mode, next).ran && StatusOf(Sync(p, mode, next).p) != Busy
  {
  }
}
