/**
  `Goer`: relative moves, going back to a matching entry, and going home
  (to the first entry of the application's own stretch of history).
 */
module Goers {
  import opened Values
  import opened Locations
  import opened MetaStates
  import opened Wrapping
  import opened NextMeta
  import opened Suppressors
  import opened Histories
  import opened Mutators
  import opened Scanners

  /** `distanceToHome`: minus the depth of a wrapped current entry, 0 for an unwrapped one. */
  function DistanceToHome(h: History): (d: int)
    requires Histories.Valid(h)
    ensures IsWrappedLocation(Current(h)) ==> d == 0 - MetaOf(Current(h).state).value.depth
    ensures !IsWrappedLocation(Current(h)) ==> d == 0
    ensures d == 0 - CurrentMeta(Current(h)).depth
  {
    if IsWrappedLocation(Current(h)) then 0 - MetaOf(Current(h).state).value.depth else 0
  }

  /** On a consistent history the distance to home leads to the home entry, whose depth is 0. */
  lemma DistanceLeadsHome(env: Env, h: History)
    requires Histories.Valid(h) && Consistent(env, h)
    ensures var r := Histories.Go(h, DistanceToHome(h));
      && r.index == Home(h) && DepthAt(h.entries, r.index) == 0
  {
    DepthChain(env, h.entries, h.index, CurrentMeta(Current(h)).depth);
  }

  /** `go(delta)`: one raw move. */
  function Go(h: History, s: Suppressor, delta: int): (o: Outcome)
    requires Histories.Valid(h)
    ensures o.h == Histories.Go(h, delta) && o.s == s
    ensures o.steps == [Step(RawGo(delta), IsActive(s))]
  {
    Outcome(Histories.Go(h, delta), s, [Step(RawGo(delta), IsActive(s))])
  }

  /** `goForward`: one raw move forward. */
  function GoForward(h: History, s: Suppressor): (o: Outcome)
    requires Histories.Valid(h)
    ensures o.h.entries == h.entries && o.s == s
    ensures h.index + 1 < |h.entries| ==> o.h.index == h.index + 1
    ensures h.index + 1 >= |h.entries| ==> o.h.index == h.index
  {
    Go(h, s, 1)
  }

  /**
    `goHome(to, state)`: moves home, if not already there; when a
    destination is given the move runs under suppression, which is
    released again before the home entry is replaced by the destination.
   */
  function GoHome(env: Env, h: History, s: Suppressor, to: Option<Target>, limit: int): (o: Outcome)
    requires Histories.Valid(h)
    ensures Histories.Valid(o.h)
    ensures o.s.count == s.count && (Suppressors.Valid(s) ==> Suppressors.Valid(o.s))
    ensures to.None? ==> o.h == (if DistanceToHome(h) != 0 then Histories.Go(h, DistanceToHome(h)) else h)
    ensures to.Some? ==> DataOf(Current(o.h).state) == CallerState(to.value)
  {
    var moved := Moved(h, s, DistanceToHome(h), to.Some?);
    if to.Some? then ReplaceAt(env, moved, to.value, limit) else moved
  }

  /** `goHome` makes one call for the move, unless already home, and one for the replace, when there is a destination. */
  lemma GoHomeCalls(env: Env, h: History, s: Suppressor, to: Option<Target>, limit: int, o: Outcome)
    requires Histories.Valid(h) && o == GoHome(env, h, s, to, limit)
    ensures |o.steps| == (if DistanceToHome(h) != 0 then 1 else 0) + (if to.Some? then 1 else 0)
  {
  }

  /** The move of `goHome` is held under suppression when a replace follows it. */
  lemma GoHomeMove(env: Env, h: History, s: Suppressor, to: Option<Target>, limit: int, o: Outcome)
    requires Histories.Valid(h) && o == GoHome(env, h, s, to, limit) && DistanceToHome(h) != 0
    ensures |o.steps| > 0 && o.steps[0] == Step(RawGo(DistanceToHome(h)), to.Some? || IsActive(s))
  {
  }

  /** The replace of `goHome` comes last and runs with suppression as the caller had it. */
  lemma GoHomeReplace(env: Env, h: History, s: Suppressor, t: Target, limit: int, o: Outcome)
    requires Histories.Valid(h) && o == GoHome(env, h, s, Some(t), limit)
    ensures |o.steps| > 0 && o.steps[|o.steps| - 1].call.RawReplace? && o.steps[|o.steps| - 1].suppressed == IsActive(s)
  {
  }

  /** The replace that ends `goHome` and `goBack`: the target is stored in the current entry, in place. */
  function ReplaceAt(env: Env, o: Outcome, t: Target, limit: int): (r: Outcome)
    requires Histories.Valid(o.h)
    ensures Histories.Valid(r.h) && r.s == o.s
    ensures r.h.index == o.h.index && |r.h.entries| == |o.h.entries|
    ensures r.steps == o.steps + [Step(ReplaceCall(o.h, env, t, limit), IsActive(o.s))]
    ensures r.h == Histories.Replace(o.h, env, ReplaceCall(o.h, env, t, limit).dest)
    ensures DataOf(Current(r.h).state) == CallerState(t)
  {
    var call := ReplaceCall(o.h, env, t, limit);
    MutatorReplaceStores(o.h, env, t, limit);
    Outcome(Histories.Replace(o.h, env, call.dest), o.s, o.steps + [Step(call, IsActive(o.s))])
  }

  /** The move of `goHome`: none at distance 0, otherwise one `go`, suppressed for its duration when `hold` is set. */
  function Moved(h: History, s: Suppressor, delta: int, hold: bool): (o: Outcome)
    requires Histories.Valid(h)
    ensures o.s.count == s.count && (Suppressors.Valid(s) ==> Suppressors.Valid(o.s))
    ensures IsActive(o.s) == IsActive(s)
    ensures delta == 0 ==> o == Outcome(h, s, [])
    ensures delta != 0 ==> o.h == Histories.Go(h, delta) && o.steps == [Step(RawGo(delta), hold || IsActive(s))]
  {
    if delta == 0 then Outcome(h, s, [])
    else if hold then
      var (held, token) := Suppress(s);
      Outcome(Histories.Go(h, delta), Release(held, token), [Step(RawGo(delta), true)])
    else Go(h, s, delta)
  }

  /**
    On a consistent history `goHome` ends on the home entry, at depth 0,
    and leaves the history consistent.
   */
  lemma GoHomeLandsHome(env: Env, h: History, s: Suppressor, to: Option<Target>, limit: int)
    requires Histories.Valid(h) && Consistent(env, h)
    ensures var o := GoHome(env, h, s, to, limit);
      && Consistent(env, o.h)
      && o.h.index == Home(h)
      && DepthAt(o.h.entries, o.h.index) == 0
  {
    var delta := DistanceToHome(h);
    DistanceLeadsHome(env, h);
    GoBackKeepsConsistent(env, h, delta);
    var moved := Moved(h, s, delta, to.Some?);
    if to.Some? {
      MutatorReplaceKeepsConsistent(moved.h, env, to.value, limit);
    }
  }

  /** The state `goBack` stores: a partial location target brings its own. */
  function EffectiveState(to: Option<Matcher>, state: Value): Value {
    if to.Some? && to.value.Object? then to.value.d.state else state
  }

  /** Whether the target is a condition that may simply not be met (a test), rather than a place to go. */
  predicate Conditional(to: Option<Matcher>) {
    to.Some? && to.value.Test?
  }

  /** The href a not-found target is written to: the path itself, or the href of the partial location. */
  function ForcedPath(env: Env, m: Matcher): string
    requires !m.Test?
  {
    match m
    case Path(path) => path
    case Object(d) => env.describe(d)
  }

  /**
    Where the replace of `goBack` writes: over the entry landed on, either
    the forced path of a target that was not found, or the landed entry's
    own position again (its pathname, search, hash and key).
   */
  predicate WritesTo(env: Env, to: Option<Matcher>, notFound: bool, landed: Location, d: Destination) {
    if notFound then
      to.Some? && !to.value.Test? && d.PathDest? && d.path == ForcedPath(env, to.value)
    else
      && d.DescriptorDest?
      && d.d.pathname == Some(landed.pathname) && d.d.search == Some(landed.search)
      && d.d.hash == Some(landed.hash) && d.d.key == landed.key
  }

  /**
    `goBack(to, state)`. Scans for the target. A test that is not met
    undoes the scan's steps, lets go of the suppression and answers false.
    Otherwise it goes to the match, or home when a path or location is not
    found, and then replaces that entry when a state is to be stored or the
    target was not found. Suppression is held across the move exactly when
    a replace follows, and is released before the replace.

    The calls are the scan's `back` steps backwards, all made while
    suppressed, followed by those of the undo or of the move and replace.

    On a consistent history it lands on the nearest entry, at or before
    the current one and not before home, that matches; if none does, a
    test answers false and a path or location is written over home.
   */
  method GoBack(env: Env, h: History, s: Suppressor, to: Option<Matcher>, state: Value, limit: int)
    returns (ok: bool, o: Outcome, back: nat)
    requires Histories.Valid(h) && Suppressors.Valid(s)
    ensures Histories.Valid(o.h) && Suppressors.Valid(o.s) && o.s.count == s.count
    ensures back <= |o.steps| && (to.None? ==> back == 0)
    ensures forall i | 0 <= i < back :: o.steps[i].call.RawGo? && o.steps[i].call.delta < 0 && o.steps[i].suppressed
    ensures !ok ==> Conditional(to) && o.h.entries == h.entries && o.h.index == h.index
    ensures !ok ==> Travel(o.steps) == 0 && AllSuppressed(o.steps) && |o.steps| == (if back == 0 then 0 else back + 1)
    ensures ok ==> back + 1 <= |o.steps| <= back + 2 && o.steps[back].call.RawGo?
    ensures ok && !IsActive(s) ==> (o.steps[back].suppressed <==> |o.steps| == back + 2)
    ensures ok && |o.steps| == back + 2 ==>
      && o.steps[back + 1].call.RawReplace? && o.steps[back + 1].suppressed == IsActive(s)
      && DataOf(Current(o.h).state) == EffectiveState(to, state)
    ensures |o.h.entries| == |h.entries|
    ensures ok && |o.steps| == back + 2 ==>
      var dest := o.steps[back + 1].call.dest;
      && (WritesTo(env, to, true, h.entries[o.h.index], dest) || WritesTo(env, to, false, h.entries[o.h.index], dest))
      && (to.None? || to.value.Test? ==> WritesTo(env, to, false, h.entries[o.h.index], dest))
    ensures ok && EffectiveState(to, state) != Undefined ==> |o.steps| == back + 2
    ensures ok && EffectiveState(to, state) == Undefined && to.None? ==> |o.steps| == 1
    ensures ok && |o.steps| == back + 1 ==> o.h.entries == h.entries
    ensures to.None? ==> ok && o.h.index == Clamp(h.index - 1, |h.entries|)
    ensures Consistent(env, h) ==> Consistent(env, o.h)
    ensures Consistent(env, h) && to.Some? ==>
      && (!ok <==> Conditional(to) && forall k: nat | Home(h) <= k <= h.index :: !MatchesAt(env, to.value, h.entries, k))
      && (ok ==> Home(h) <= o.h.index <= h.index)
      && (ok && MatchesAt(env, to.value, h.entries, o.h.index) ==>
            forall k | o.h.index < k <= h.index :: !MatchesAt(env, to.value, h.entries, k))
      && (ok && !MatchesAt(env, to.value, h.entries, o.h.index) ==>
            && o.h.index == Home(h) && |o.steps| == back + 2
            && WritesTo(env, to, true, h.entries[o.h.index], o.steps[back + 1].call.dest)
            && forall k: nat | Home(h) <= k <= h.index :: !MatchesAt(env, to.value, h.entries, k))
      && (ok && MatchesAt(env, to.value, h.entries, o.h.index) && EffectiveState(to, state) == Undefined ==>
            |o.steps| == back + 1)
      && (ok && MatchesAt(env, to.value, h.entries, o.h.index) && |o.steps| == back + 2 ==>
            WritesTo(env, to, false, h.entries[o.h.index], o.steps[back + 1].call.dest))
    ensures Consistent(env, h) && to.Some? && !to.value.Test? &&
            (forall k: nat | Home(h) <= k <= h.index :: !MatchesAt(env, to.value, h.entries, k)) ==>
      && ok && o.h.index == Home(h) && |o.steps| == back + 2
      && WritesTo(env, to, true, h.entries[o.h.index], o.steps[back + 1].call.dest)
  {
    var found, h1, s1, moves := Scan(env, h, s, to);
    back := |moves|;
    if found.delta.NotFound? && Conditional(to) {
      o := UndoScan(h, s, found, h1, s1, moves);
      return false, o, back;
    }
    ok := true;
    o := GoBackAfterScan(env, h, s, to, state, limit, found, h1, s1, moves);
  }

  /**
    `goBack` when the scan found the target, or did not find a path or
    location: the scan's `moves`, then those of the move and the replace.
   */
  method GoBackAfterScan(env: Env, h: History, s: Suppressor, to: Option<Matcher>, state: Value, limit: int,
                         found: ScanResult, h1: History, s1: Suppressor, moves: seq<Step>) returns (o: Outcome)
    requires Histories.Valid(h) && Histories.Valid(h1)
    requires Scanned(env, h, s, to, found, h1, s1)
    requires StepsBack(moves, found.undo) && AllSuppressed(moves) && (to.None? ==> moves == [])
    requires Consistent(env, h) ==> Consistent(env, h1) && Home(h1) == Home(h)
    requires Consistent(env, h) && to.Some? && found.delta.Offset? ==>
      && h1.index + found.delta.n >= Home(h)
      && MatchesAt(env, to.value, h.entries, h1.index + found.delta.n)
      && forall k | h1.index + found.delta.n < k <= h.index :: !MatchesAt(env, to.value, h.entries, k)
    requires Consistent(env, h) && to.Some? && found.delta.NotFound? ==>
      forall k: nat | Home(h) <= k <= h.index :: !MatchesAt(env, to.value, h.entries, k)
    ensures Histories.Valid(o.h) && Suppressors.Valid(o.s) && o.s.count == s.count
    ensures |moves| + 1 <= |o.steps| <= |moves| + 2 && o.steps[|moves|].call.RawGo?
    ensures forall i | 0 <= i < |moves| :: o.steps[i].call.RawGo? && o.steps[i].call.delta < 0 && o.steps[i].suppressed
    ensures !IsActive(s) ==> (o.steps[|moves|].suppressed <==> |o.steps| == |moves| + 2)
    ensures |o.steps| == |moves| + 2 ==>
      && o.steps[|moves| + 1].call.RawReplace? && o.steps[|moves| + 1].suppressed == IsActive(s)
      && DataOf(Current(o.h).state) == EffectiveState(to, state)
    ensures |o.h.entries| == |h.entries|
    ensures |o.steps| == |moves| + 2 ==>
      var dest := o.steps[|moves| + 1].call.dest;
      && (WritesTo(env, to, true, h.entries[o.h.index], dest) || WritesTo(env, to, false, h.entries[o.h.index], dest))
      && (to.None? || to.value.Test? ==> WritesTo(env, to, false, h.entries[o.h.index], dest))
    ensures EffectiveState(to, state) != Undefined ==> |o.steps| == |moves| + 2
    ensures EffectiveState(to, state) == Undefined && to.None? ==> |o.steps| == 1
    ensures |o.steps| == |moves| + 1 ==> o.h.entries == h.entries
    ensures to.None? ==> o.h.index == Clamp(h.index - 1, |h.entries|)
    ensures Consistent(env, h) ==> Consistent(env, o.h)
    ensures Consistent(env, h) && to.Some? ==>
      && !(Conditional(to) && forall k: nat | Home(h) <= k <= h.index :: !MatchesAt(env, to.value, h.entries, k))
      && Home(h) <= o.h.index <= h.index
      && (MatchesAt(env, to.value, h.entries, o.h.index) ==>
            forall k | o.h.index < k <= h.index :: !MatchesAt(env, to.value, h.entries, k))
      && (!MatchesAt(env, to.value, h.entries, o.h.index) ==>
            && o.h.index == Home(h) && |o.steps| == |moves| + 2
            && WritesTo(env, to, true, h.entries[o.h.index], o.steps[|moves| + 1].call.dest)
            && forall k: nat | Home(h) <= k <= h.index :: !MatchesAt(env, to.value, h.entries, k))
      && (MatchesAt(env, to.value, h.entries, o.h.index) && EffectiveState(to, state) == Undefined ==>
            |o.steps| == |moves| + 1)
      && (MatchesAt(env, to.value, h.entries, o.h.index) && |o.steps| == |moves| + 2 ==>
            WritesTo(env, to, false, h.entries[o.h.index], o.steps[|moves| + 1].call.dest))
  {
    var rest := GoToMatch(env, h, s, to, state, limit, found, h1, s1);
    o := rest.(steps := moves + rest.steps);
    assert forall i | 0 <= i < |rest.steps| :: o.steps[|moves| + i] == rest.steps[i];
  }

  /**
    `goBack` after a scan that found the target, or did not find a path
    or location: the calls made, and on a consistent history where the
    move lands.
   */
  method GoToMatch(env: Env, h: History, s: Suppressor, to: Option<Matcher>, state: Value, limit: int,
                   found: ScanResult, h1: History, s1: Suppressor) returns (o: Outcome)
    requires Histories.Valid(h) && Histories.Valid(h1)
    requires Scanned(env, h, s, to, found, h1, s1)
    requires Consistent(env, h) ==> Consistent(env, h1) && Home(h1) == Home(h)
    requires Consistent(env, h) && to.Some? && found.delta.Offset? ==>
      && h1.index + found.delta.n >= Home(h)
      && MatchesAt(env, to.value, h.entries, h1.index + found.delta.n)
      && forall k | h1.index + found.delta.n < k <= h.index :: !MatchesAt(env, to.value, h.entries, k)
    requires Consistent(env, h) && to.Some? && found.delta.NotFound? ==>
      forall k: nat | Home(h) <= k <= h.index :: !MatchesAt(env, to.value, h.entries, k)
    ensures Histories.Valid(o.h) && Suppressors.Valid(o.s) && o.s.count == s.count
    ensures 1 <= |o.steps| <= 2 && o.steps[0].call.RawGo?
    ensures !IsActive(s) ==> (o.steps[0].suppressed <==> |o.steps| == 2)
    ensures |o.steps| == 2 ==>
      && o.steps[1].call.RawReplace? && o.steps[1].suppressed == IsActive(s)
      && DataOf(Current(o.h).state) == EffectiveState(to, state)
    ensures EffectiveState(to, state) != Undefined ==> |o.steps| == 2
    ensures EffectiveState(to, state) == Undefined && found.delta.Offset? ==> |o.steps| == 1
    ensures |o.steps| == 1 ==> o.h.entries == h.entries
    ensures |o.h.entries| == |h.entries|
    ensures found.delta.NotFound? ==> |o.steps| == 2
    ensures |o.steps| == 2 ==> o.h.index < |h1.entries| && WritesTo(env, to, found.delta.NotFound?, h1.entries[o.h.index], o.steps[1].call.dest)
    ensures to.None? ==> o.h.index == Clamp(h.index - 1, |h.entries|)
    ensures Consistent(env, h) ==> Consistent(env, o.h)
    ensures Consistent(env, h) && to.Some? ==>
      && Home(h) <= o.h.index <= h.index
      && (found.delta.Offset? ==> MatchesAt(env, to.value, h.entries, o.h.index))
      && (MatchesAt(env, to.value, h.entries, o.h.index) ==>
            forall k | o.h.index < k <= h.index :: !MatchesAt(env, to.value, h.entries, k))
      && (!MatchesAt(env, to.value, h.entries, o.h.index) ==>
            && found.delta.NotFound? && o.h.index == Home(h) && |o.steps| == 2)
      && (found.delta.NotFound? ==> !MatchesAt(env, to.value, h.entries, o.h.index))
  {
    var st := EffectiveState(to, state);
    o := GoToFound(env, s, to, st, limit, found, h1, s1);
    GoToFoundMove(env, s, to, st, limit, found, h1, s1, o);
    if |o.steps| == 2 {
      GoToFoundReplace(env, s, to, st, limit, found, h1, s1, o);
      GoToFoundWrites(env, s, to, st, limit, found, h1, s1, o);
    } else {
      GoToFoundMoveOnly(env, s, to, st, limit, found, h1, s1, o);
    }
    if Consistent(env, h) {
      GoToFoundConsistent(env, h, s, to, st, limit, found, h1, s1, o);
      if to.Some? {
        GoToFoundLanding(env, h, s, to.value, st, limit, found, h1, s1, o);
      }
    }
  }

  /** What the scan of `goBack` hands on: the provider, the suppression and the offset, as the scan leaves them. */
  ghost predicate Scanned(env: Env, h: History, s: Suppressor, to: Option<Matcher>, found: ScanResult, h1: History, s1: Suppressor)
    requires Histories.Valid(h) && Histories.Valid(h1)
  {
    && Suppressors.Valid(s)
    && (to.None? ==> found == ScanResult(Offset(-1), None, 0) && h1 == h && s1 == s)
    && h1.entries == h.entries && h1.index + found.undo == h.index
    && (found.undo == 0 ==> h1 == h)
    && (found.resume.None? ==> s1 == s)
    && (found.resume.Some? ==> s1 == Suppress(s).0 && found.resume.value == Suppress(s).1)
    && (found.delta.Offset? && to.Some? ==> found.delta.n <= 0 && h1.index + found.delta.n >= 0)
    && !(found.delta.NotFound? && Conditional(to))
  }

  /** The offset `goBack` moves by: to the match, or home when there is none. */
  function Aim(h1: History, found: ScanResult): int
    requires Histories.Valid(h1)
  {
    if found.delta.NotFound? then DistanceToHome(h1) else found.delta.n
  }

  /**
    The rest of `goBack` once the scan has found the target, or has not
    found a path or location: go to the match, or home, and replace the
    entry landed on when a state is to be stored or the target was not
    found, in which case the path is forced.
   */
  function GoToFound(env: Env, s: Suppressor, to: Option<Matcher>, st: Value, limit: int,
                     found: ScanResult, h1: History, s1: Suppressor): (o: Outcome)
    requires Histories.Valid(h1) && Suppressors.Valid(s)
    requires found.delta.NotFound? ==> to.Some? && !to.value.Test?
    requires found.resume.None? ==> s1 == s
    requires found.resume.Some? ==> s1 == Suppress(s).0 && found.resume.value == Suppress(s).1
    ensures Histories.Valid(o.h) && Suppressors.Valid(o.s) && o.s.count == s.count
    ensures o.h.index == Histories.Go(h1, Aim(h1, found)).index && |o.h.entries| == |h1.entries|
    ensures |o.steps| == (if st != Undefined || found.delta.NotFound? then 2 else 1)
  {
    var delta := Aim(h1, found);
    var forcePath := if found.delta.NotFound? then Some(ForcedPath(env, to.value)) else None;
    MoveThenReplace(env, s, h1, s1, found.resume, delta, st != Undefined || found.delta.NotFound?, forcePath, st, limit)
  }

  /**
    The first call `goBack` makes after the scan: one move to the landing,
    suppressed when a replace follows.
   */
  lemma GoToFoundMove(env: Env, s: Suppressor, to: Option<Matcher>, st: Value, limit: int,
                       found: ScanResult, h1: History, s1: Suppressor, o: Outcome)
    requires Histories.Valid(h1) && Suppressors.Valid(s)
    requires found.delta.NotFound? ==> to.Some? && !to.value.Test?
    requires found.resume.None? ==> s1 == s
    requires found.resume.Some? ==> s1 == Suppress(s).0 && found.resume.value == Suppress(s).1
    requires o == GoToFound(env, s, to, st, limit, found, h1, s1)
    ensures o.steps[0] == Step(RawGo(Aim(h1, found)), |o.steps| == 2 || IsActive(s))
  {
  }

  /** Without a replace, the move is all `goBack` does after the scan. */
  lemma GoToFoundMoveOnly(env: Env, s: Suppressor, to: Option<Matcher>, st: Value, limit: int,
                       found: ScanResult, h1: History, s1: Suppressor, o: Outcome)
    requires Histories.Valid(h1) && Suppressors.Valid(s)
    requires found.delta.NotFound? ==> to.Some? && !to.value.Test?
    requires found.resume.None? ==> s1 == s
    requires found.resume.Some? ==> s1 == Suppress(s).0 && found.resume.value == Suppress(s).1
    requires o == GoToFound(env, s, to, st, limit, found, h1, s1)
    requires |o.steps| == 1
    ensures o.h == Histories.Go(h1, Aim(h1, found))
  {
  }

  /**
    The replace after the move is made with suppression as the caller had
    it, and stores the state.
   */
  lemma GoToFoundReplace(env: Env, s: Suppressor, to: Option<Matcher>, st: Value, limit: int,
                       found: ScanResult, h1: History, s1: Suppressor, o: Outcome)
    requires Histories.Valid(h1) && Suppressors.Valid(s)
    requires found.delta.NotFound? ==> to.Some? && !to.value.Test?
    requires found.resume.None? ==> s1 == s
    requires found.resume.Some? ==> s1 == Suppress(s).0 && found.resume.value == Suppress(s).1
    requires o == GoToFound(env, s, to, st, limit, found, h1, s1)
    requires |o.steps| == 2
    ensures o.steps[1].call.RawReplace? && o.steps[1].suppressed == IsActive(s) && DataOf(Current(o.h).state) == st
  {
  }

  /**
    The replace after the move writes the forced path when the target was
    not found, and otherwise the landed entry's own position again.
   */
  lemma GoToFoundWrites(env: Env, s: Suppressor, to: Option<Matcher>, st: Value, limit: int,
                        found: ScanResult, h1: History, s1: Suppressor, o: Outcome)
    requires Histories.Valid(h1) && Suppressors.Valid(s)
    requires found.delta.NotFound? ==> to.Some? && !to.value.Test?
    requires found.resume.None? ==> s1 == s
    requires found.resume.Some? ==> s1 == Suppress(s).0 && found.resume.value == Suppress(s).1
    requires o == GoToFound(env, s, to, st, limit, found, h1, s1)
    requires |o.steps| == 2
    ensures o.h.index < |h1.entries| && o.steps[1].call.RawReplace?
    ensures WritesTo(env, to, found.delta.NotFound?, h1.entries[o.h.index], o.steps[1].call.dest)
  {
    var delta := Aim(h1, found);
    var forcePath := if found.delta.NotFound? then Some(ForcedPath(env, to.value)) else None;
    var h2 := Histories.Go(h1, delta);
    MoveThenReplaceCall(env, s, h1, s1, found.resume, delta, forcePath, st, limit);
    ReplaceWrites(env, to, found.delta.NotFound?, h2, st, limit);
  }

  /** With a replace, the second call is the raw replace at the landing, and the position stays there. */
  lemma MoveThenReplaceCall(env: Env, s: Suppressor, h1: History, s1: Suppressor, resume: Option<nat>, delta: int,
                            forcePath: Option<string>, st: Value, limit: int)
    requires Histories.Valid(h1) && Suppressors.Valid(s)
    requires resume.None? ==> s1 == s
    requires resume.Some? ==> s1 == Suppress(s).0 && resume.value == Suppress(s).1
    ensures var o := MoveThenReplace(env, s, h1, s1, resume, delta, true, forcePath, st, limit);
      var h2 := Histories.Go(h1, delta);
      && |o.steps| == 2 && o.h.index == h2.index
      && o.steps[1].call == ReplaceCall(h2, env, ReplaceTarget(h2, forcePath, st), limit)
  {
  }

  /** The replace of `goBack` at `h2` writes the forced path, or `h2`'s own position. */
  lemma ReplaceWrites(env: Env, to: Option<Matcher>, notFound: bool, h2: History, st: Value, limit: int)
    requires Histories.Valid(h2) && (notFound ==> to.Some? && !to.value.Test?)
    ensures var forcePath := if notFound then Some(ForcedPath(env, to.value)) else None;
      WritesTo(env, to, notFound, Current(h2), ReplaceCall(h2, env, ReplaceTarget(h2, forcePath, st), limit).dest)
  {
  }

  /** `goBack` keeps a consistent history consistent. */
  lemma GoToFoundConsistent(env: Env, h: History, s: Suppressor, to: Option<Matcher>, st: Value, limit: int,
                            found: ScanResult, h1: History, s1: Suppressor, o: Outcome)
    requires Histories.Valid(h) && Histories.Valid(h1) && Consistent(env, h)
    requires Scanned(env, h, s, to, found, h1, s1)
    requires Consistent(env, h1) && Home(h1) == Home(h)
    requires o == GoToFound(env, s, to, st, limit, found, h1, s1)
    ensures Consistent(env, o.h)
  {
    var delta := Aim(h1, found);
    var forcePath := if found.delta.NotFound? then Some(ForcedPath(env, to.value)) else None;
    GoBackKeepsConsistent(env, h1, delta);
    if st != Undefined || found.delta.NotFound? {
      MutatorReplaceKeepsConsistent(Histories.Go(h1, delta), env, ReplaceTarget(Histories.Go(h1, delta), forcePath, st), limit);
    }
  }

  /**
    Where `goBack` lands on a consistent history: on the match the scan
    found, or on the home entry when there is none; either way at or
    before the current entry and not before home, with no match after the
    landing.
   */
  lemma GoToFoundLanding(env: Env, h: History, s: Suppressor, m: Matcher, st: Value, limit: int,
                         found: ScanResult, h1: History, s1: Suppressor, o: Outcome)
    requires Histories.Valid(h) && Histories.Valid(h1) && Consistent(env, h)
    requires Scanned(env, h, s, Some(m), found, h1, s1)
    requires Consistent(env, h1) && Home(h1) == Home(h)
    requires found.delta.Offset? ==>
      && h1.index + found.delta.n >= Home(h)
      && MatchesAt(env, m, h.entries, h1.index + found.delta.n)
      && forall k | h1.index + found.delta.n < k <= h.index :: !MatchesAt(env, m, h.entries, k)
    requires found.delta.NotFound? ==>
      forall k: nat | Home(h) <= k <= h.index :: !MatchesAt(env, m, h.entries, k)
    requires o == GoToFound(env, s, Some(m), st, limit, found, h1, s1)
    ensures Home(h) <= o.h.index <= h.index
    ensures found.delta.Offset? ==> MatchesAt(env, m, h.entries, o.h.index)
    ensures MatchesAt(env, m, h.entries, o.h.index) ==>
      forall k | o.h.index < k <= h.index :: !MatchesAt(env, m, h.entries, k)
    ensures !MatchesAt(env, m, h.entries, o.h.index) ==>
      found.delta.NotFound? && o.h.index == Home(h) && |o.steps| == 2
  {
    Landing(env, h, h1, found, m, o.h.index);
  }

  /** Where the move of `goBack` ends, from the scan's findings alone. */
  lemma Landing(env: Env, h: History, h1: History, found: ScanResult, m: Matcher, landing: nat)
    requires Histories.Valid(h) && Histories.Valid(h1) && Consistent(env, h)
    requires h1.entries == h.entries && h1.index <= h.index
    requires Consistent(env, h1) && Home(h1) == Home(h)
    requires found.delta.Offset? ==> found.delta.n <= 0 && h1.index + found.delta.n >= 0
    requires found.delta.Offset? ==>
      && h1.index + found.delta.n >= Home(h)
      && MatchesAt(env, m, h.entries, h1.index + found.delta.n)
      && forall k | h1.index + found.delta.n < k <= h.index :: !MatchesAt(env, m, h.entries, k)
    requires found.delta.NotFound? ==>
      forall k: nat | Home(h) <= k <= h.index :: !MatchesAt(env, m, h.entries, k)
    requires landing == Histories.Go(h1, Aim(h1, found)).index
    ensures Home(h) <= landing <= h.index
    ensures found.delta.Offset? ==> MatchesAt(env, m, h.entries, landing)
    ensures MatchesAt(env, m, h.entries, landing) ==>
      forall k | landing < k <= h.index :: !MatchesAt(env, m, h.entries, k)
    ensures !MatchesAt(env, m, h.entries, landing) ==> found.delta.NotFound? && landing == Home(h)
  {
    assert EntryConsistent(env, h.entries, h.index);
    if found.delta.NotFound? {
      DistanceLeadsHome(env, h1);
    }
  }

  /**
    A test that was not met: after the scan's `moves`, step forward again by
    `undo`, still suppressed, and let go of the suppression. The calls made
    cancel out.
   */
  method UndoScan(h: History, s: Suppressor, found: ScanResult, h1: History, s1: Suppressor, moves: seq<Step>)
    returns (o: Outcome)
    requires Histories.Valid(h) && Histories.Valid(h1) && Suppressors.Valid(s)
    requires h1.entries == h.entries && h1.index + found.undo == h.index
    requires found.undo == 0 ==> h1 == h
    requires found.resume.Some? <==> found.undo > 0
    requires found.resume.None? ==> s1 == s
    requires found.resume.Some? ==> s1 == Suppress(s).0 && found.resume.value == Suppress(s).1
    requires StepsBack(moves, found.undo) && AllSuppressed(moves)
    ensures Histories.Valid(o.h) && o.h.entries == h.entries && o.h.index == h.index
    ensures Suppressors.Valid(o.s) && o.s.count == s.count
    ensures Travel(o.steps) == 0 && AllSuppressed(o.steps)
    ensures |o.steps| == (if |moves| == 0 then 0 else |moves| + 1)
    ensures forall i | 0 <= i < |moves| :: o.steps[i] == moves[i]
  {
    var h2 := h1;
    var steps := moves;
    if found.undo != 0 {
      h2 := Histories.Go(h1, found.undo);
      TravelAppend(moves, Step(RawGo(found.undo), IsActive(s1)));
      steps := moves + [Step(RawGo(found.undo), IsActive(s1))];
    }
    var s2 := if found.resume.Some? then Release(s1, found.resume.value) else s1;
    o := Outcome(h2, s2, steps);
  }

  /** What a replace after `goBack` writes: the forced path, or the landing entry itself, with the state. */
  function ReplaceTarget(h2: History, forcePath: Option<string>, st: Value): (t: Target)
    requires Histories.Valid(h2)
    ensures CallerState(t) == st
  {
    if forcePath.Some? then PathTarget(forcePath.value, st)
    else DescriptorTarget(ToDescriptor(Current(h2)).(state := st))
  }

  /**
    The second half of `goBack`: makes sure suppression is held exactly when
    a replace follows, moves by `delta`, then releases and replaces.
   */
  function MoveThenReplace(env: Env, s: Suppressor, h1: History, s1: Suppressor, resume: Option<nat>, delta: int,
                           willReplace: bool, forcePath: Option<string>, st: Value, limit: int): (o: Outcome)
    requires Histories.Valid(h1) && Suppressors.Valid(s)
    requires resume.None? ==> s1 == s
    requires resume.Some? ==> s1 == Suppress(s).0 && resume.value == Suppress(s).1
    ensures Suppressors.Valid(o.s) && o.s.count == s.count
    ensures !willReplace ==> o == Outcome(Histories.Go(h1, delta), o.s, [Step(RawGo(delta), IsActive(s))])
    ensures willReplace ==>
      var h2 := Histories.Go(h1, delta);
      o == ReplaceAt(env, Outcome(h2, o.s, [Step(RawGo(delta), true)]), ReplaceTarget(h2, forcePath, st), limit)
  {
    var (s2, token) := Hold(s, s1, resume, willReplace);
    var h2 := Histories.Go(h1, delta);
    var steps := [Step(RawGo(delta), IsActive(s2))];
    if !willReplace then Outcome(h2, s2, steps)
    else ReplaceAt(env, Outcome(h2, Release(s2, token.value), steps), ReplaceTarget(h2, forcePath, st), limit)
  }

  /**
    Holds suppression exactly when a replace follows: takes it now, or lets
    go of the scan's. Answers the suppressor and the release token held.
   */
  function Hold(s: Suppressor, s1: Suppressor, resume: Option<nat>, willReplace: bool): (r: (Suppressor, Option<nat>))
    requires Suppressors.Valid(s)
    requires resume.None? ==> s1 == s
    requires resume.Some? ==> s1 == Suppress(s).0 && resume.value == Suppress(s).1
    ensures r.1.Some? <==> willReplace
    ensures willReplace ==> r.0 == Suppress(s).0 && r.1.value == Suppress(s).1
    ensures !willReplace ==> Suppressors.Valid(r.0) && r.0.count == s.count
  {
    if resume.Some? && !willReplace then (Release(s1, resume.value), None)
    else if resume.None? && willReplace then (Suppress(s1).0, Some(Suppress(s1).1))
    else (s1, resume)
  }
}
