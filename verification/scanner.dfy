/**
  `Scanner`: searches backwards through the history for the nearest entry
  whose href matches, reading the cached hrefs of the current entry before
  stepping back past them.
 */
module Scanners {
  import opened Values
  import opened Locations
  import opened MetaStates
  import opened Wrapping
  import opened Suppressors
  import opened Histories

  /**
    What to look for: an exact href, a test on hrefs (a function, or a
    regular expression's `test`), or a partial location, which is turned
    into an href by the provider's `createHref`.
   */
  datatype Matcher = Path(path: string) | Test(f: string -> bool) | Object(d: Descriptor)

  /** Whether `href` is what `m` looks for. */
  predicate Accepts(env: Env, m: Matcher, href: string) {
    match m
    case Path(path) => href == path
    case Test(f) => f(href)
    case Object(d) => href == env.describe(d)
  }

  /** Whether the entry at position `k` is what `m` looks for. */
  predicate MatchesAt(env: Env, m: Matcher, entries: seq<Location>, k: nat)
    requires k < |entries|
  {
    Accepts(env, m, env.createHref(entries[k]))
  }

  /** A scan's distance: a whole number of entries, or NaN when nothing was found. */
  datatype Delta = Offset(n: int) | NotFound

  /**
    The scan result: `delta` is relative to the position the scan ends at,
    `undo` is how many entries it stepped back, and `resume` is the release
    token of the suppression it took, if any.
   */
  datatype ScanResult = ScanResult(delta: Delta, resume: Option<nat>, undo: nat)

  /**
    `scan(match)`. With no target the answer is -1 at once. Otherwise the
    current href and then the cached hrefs, newest first, are tested; when
    the cache is exhausted and the entry is deeper than its cache, the scan
    suppresses once and steps back past the cached entries. It stops with
    NaN at an unwrapped entry or when the cache reaches home. Each step
    back is one `go` that the provider carries out. Only cached hrefs of
    entries that exist are tested, and the scan also stops with NaN where
    a step back would pass the first entry, so it ends on every history.

    On a consistent history the answer is exact: a number points at the
    nearest matching entry at or before the starting one, and NaN means no
    entry between the starting entry's home and the starting entry matches.
   */
  method Scan(env: Env, h: History, s: Suppressor, target: Option<Matcher>)
    returns (r: ScanResult, h': History, s': Suppressor, steps: seq<Step>)
    requires Histories.Valid(h)
    ensures target.None? ==> r == ScanResult(Offset(-1), None, 0) && h' == h && s' == s && steps == []
    ensures StepsBack(steps, r.undo) && (Suppressors.Valid(s) ==> AllSuppressed(steps))
    ensures Histories.Valid(h') && h'.entries == h.entries && h'.index + r.undo == h.index
    ensures r.undo == 0 ==> h' == h
    ensures Consistent(env, h) ==> Consistent(env, h') && Home(h') == Home(h)
    ensures r.resume.Some? <==> r.undo > 0
    ensures r.resume.None? ==> s' == s
    ensures r.resume.Some? ==> s' == Suppress(s).0 && r.resume.value == Suppress(s).1
    ensures r.delta.Offset? && target.Some? ==> r.delta.n <= 0 && h'.index + r.delta.n >= 0
    ensures Consistent(env, h) && target.Some? && r.delta.Offset? ==>
      && h'.index + r.delta.n >= Home(h)
      && MatchesAt(env, target.value, h.entries, h'.index + r.delta.n)
      && forall k | h'.index + r.delta.n < k <= h.index :: !MatchesAt(env, target.value, h.entries, k)
    ensures Consistent(env, h) && target.Some? && r.delta.NotFound? ==>
      forall k: nat | Home(h) <= k <= h.index :: !MatchesAt(env, target.value, h.entries, k)
  {
    if target.None? {
      return ScanResult(Offset(-1), None, 0), h, s, [];
    }
    r, h', s', steps := ScanFor(env, h, s, target.value);
    if Consistent(env, h) {
      ConsistentPrefix(env, h, h'.index);
    }
  }

  /** The loop of `scan`, for a target that is given. */
  method ScanFor(env: Env, h: History, s: Suppressor, m: Matcher)
    returns (r: ScanResult, h': History, s': Suppressor, steps: seq<Step>)
    requires Histories.Valid(h)
    ensures Histories.Valid(h') && h'.entries == h.entries && h'.index + r.undo == h.index
    ensures r.undo == 0 ==> h' == h
    ensures Consistent(env, h) ==> Home(h') == Home(h)
    ensures Kept(s, s', r.resume, steps, r.undo)
    ensures r.delta.Offset? ==> r.delta.n <= 0 && h'.index + r.delta.n >= 0
    ensures Consistent(env, h) && r.delta.Offset? ==>
      && h'.index + r.delta.n >= Home(h)
      && MatchesAt(env, m, h.entries, h'.index + r.delta.n)
      && forall k | h'.index + r.delta.n < k <= h.index :: !MatchesAt(env, m, h.entries, k)
    ensures Consistent(env, h) && r.delta.NotFound? ==>
      forall k: nat | Home(h) <= k <= h.index :: !MatchesAt(env, m, h.entries, k)
  {
    // The offset counted in a round drops by one per cached href tested and
    // rises by the cache's length again when the round steps back, so every
    // round starts from 0 and a hit's offset is the one its round counted.
    var undo := 0;
    var resume: Option<nat> := None;
    h', s', steps := h, s, [];
    while true
      invariant Histories.Valid(h') && h'.entries == h.entries && h'.index + undo == h.index
      invariant undo == 0 ==> h' == h
      invariant Kept(s, s', resume, steps, undo)
      invariant Consistent(env, h) ==> Home(h') == Home(h)
      invariant Consistent(env, h) ==> forall k | h'.index < k <= h.index :: !MatchesAt(env, m, h.entries, k)
      decreases h'.index
    {
      var round := ScanEntry(env, h, h', m);
      match round
      case Hit(passed) =>
        return ScanResult(Offset(passed), resume, undo), h', s', steps;
      case Stop =>
        break;
      case Back(_, togo) =>
        var next := Retreat(s, s', resume, steps, undo, togo);
        s', resume, steps := next.0, next.1, next.2;
        undo := undo + togo;
        h' := Go(h', 0 - togo);
    }
    r := ScanResult(NotFound, resume, undo);
  }

  /** The total distance moved by the raw `go` calls among `steps`. */
  function Travel(steps: seq<Step>): int {
    if |steps| == 0 then 0
    else Travel(steps[..|steps| - 1]) + (if steps[|steps| - 1].call.RawGo? then steps[|steps| - 1].call.delta else 0)
  }

  lemma TravelAppend(steps: seq<Step>, x: Step)
    ensures Travel(steps + [x]) == Travel(steps) + (if x.call.RawGo? then x.call.delta else 0)
  {
    assert (steps + [x])[..|steps|] == steps;
  }

  /** Every step ran while suppression was active. */
  predicate AllSuppressed(steps: seq<Step>) {
    forall i | 0 <= i < |steps| :: steps[i].suppressed
  }

  /**
    The scan's calls: one raw `go` backwards per step back, together going
    back by `undo`; there are none exactly when `undo` is 0.
   */
  predicate StepsBack(steps: seq<Step>, undo: nat) {
    && (forall i | 0 <= i < |steps| :: steps[i].call.RawGo? && steps[i].call.delta < 0)
    && Travel(steps) == 0 - undo
    && (|steps| == 0 <==> undo == 0)
  }

  /**
    Records one more step back of `togo`, made while the scan holds the
    suppression it took from `s`: the record of the scan's calls is kept,
    and so is their all being suppressed.
   */
  function RecordBack(steps: seq<Step>, undo: nat, togo: nat, s: Suppressor): (r: seq<Step>)
    requires StepsBack(steps, undo) && togo > 0
    ensures StepsBack(r, undo + togo)
    ensures |r| == |steps| + 1 && r[..|steps|] == steps && r[|steps|].suppressed == IsActive(Suppress(s).0)
    ensures Suppressors.Valid(s) && AllSuppressed(steps) ==> AllSuppressed(r)
  {
    var x := Step(RawGo(0 - togo), IsActive(Suppress(s).0));
    TravelAppend(steps, x);
    steps + [x]
  }

  /**
    What the scan keeps after stepping back by `undo` in all: the
    suppression taken once from `s` before the first step back, and the
    record of its calls.
   */
  predicate Kept(s: Suppressor, s': Suppressor, resume: Option<nat>, steps: seq<Step>, undo: nat) {
    && (resume.Some? <==> undo > 0)
    && (resume.None? ==> s' == s)
    && (resume.Some? ==> s' == Suppress(s).0 && resume.value == Suppress(s).1)
    && StepsBack(steps, undo)
    && (Suppressors.Valid(s) ==> AllSuppressed(steps))
  }

  /** One more step back of `togo`: holds the suppression and records the call. */
  function Retreat(s: Suppressor, s': Suppressor, resume: Option<nat>, steps: seq<Step>, undo: nat, togo: nat)
    : (r: (Suppressor, Option<nat>, seq<Step>))
    requires Kept(s, s', resume, steps, undo) && togo > 0
    ensures Kept(s, r.0, r.1, r.2, undo + togo)
  {
    var held := HoldOnce(s, s', resume);
    (held.0, held.1, RecordBack(steps, undo, togo, s))
  }

  /** The scan suppresses once, before its first step back, and keeps that suppression. */
  function HoldOnce(s: Suppressor, s': Suppressor, resume: Option<nat>): (r: (Suppressor, Option<nat>))
    requires resume.None? ==> s' == s
    requires resume.Some? ==> s' == Suppress(s).0 && resume.value == Suppress(s).1
    ensures r.0 == Suppress(s).0 && r.1 == Some(Suppress(s).1)
  {
    if resume.None? then (Suppress(s').0, Some(Suppress(s').1)) else (s', resume)
  }

  /**
    One round of the loop of `scan`, at the entry the source is on: a hit
    on its href or in its cache, with the offset counted so far; a stop at
    an unwrapped entry or at a cache that reaches home; or a step back past
    the cache.
   */
  datatype Round = Hit(passed: int) | Stop | Back(passed: int, togo: nat)

  /**
    The tests of one round: the current href, then the cached hrefs of
    entries that exist. It stops where the step back would pass the first
    entry, and agrees with the round as written wherever the
    entry claims no more levels than there are entries before it. On a
    consistent history a hit points at the nearest match, a stop means no
    entry from home on matches, and a step back passes over non-matching
    entries only and stays within the same home.
   */
  method ScanEntry(env: Env, h: History, h': History, m: Matcher) returns (round: Round)
    requires Histories.Valid(h) && Histories.Valid(h') && h'.entries == h.entries && h'.index <= h.index
    requires Consistent(env, h) ==> Home(h') == Home(h)
    requires Consistent(env, h) ==> forall k | h'.index < k <= h.index :: !MatchesAt(env, m, h.entries, k)
    ensures CurrentMeta(Current(h')).depth <= h'.index ==> round == RoundAsWritten(env, h', m)
    ensures round.Hit? ==> round.passed <= 0 && h'.index + round.passed >= 0
    ensures round.Hit? && Consistent(env, h) ==>
      && h'.index + round.passed >= Home(h)
      && MatchesAt(env, m, h.entries, h'.index + round.passed)
      && forall k | h'.index + round.passed < k <= h.index :: !MatchesAt(env, m, h.entries, k)
    ensures round.Stop? && Consistent(env, h) ==>
      forall k: nat | Home(h) <= k <= h.index :: !MatchesAt(env, m, h.entries, k)
    ensures round.Back? ==> round.togo > 0 && round.passed == 1 - round.togo && round.togo <= h'.index
    ensures round.Back? ==> Go(h', 0 - round.togo).index == h'.index - round.togo
    ensures round.Back? && Consistent(env, h) ==>
      && Home(Go(h', 0 - round.togo)) == Home(h)
      && forall k | h'.index - round.togo < k <= h.index :: !MatchesAt(env, m, h.entries, k)
  {
    if Accepts(env, m, env.createHref(Current(h'))) {
      return Hit(0);
    }
    if !IsWrappedLocation(Current(h')) {
      ScanMiss(env, h, h', m);
      return Stop;
    }
    round := ScanWrapped(env, h, h', m);
  }

  /**
    What a round at `h'` of a scan that started at `h` tells: it agrees
    with the round as written where the entry is grounded, it stays on the
    history, and on a consistent history a hit is the nearest match, a
    stop means no match from home on, and a step back passes over
    non-matching entries only.
   */
  ghost predicate Means(env: Env, h: History, h': History, m: Matcher, round: Round)
    requires Histories.Valid(h) && Histories.Valid(h') && h'.entries == h.entries && h'.index <= h.index
  {
    && (CurrentMeta(Current(h')).depth <= h'.index ==> round == RoundAsWritten(env, h', m))
    && (round.Hit? ==> round.passed <= 0 && h'.index + round.passed >= 0)
    && (round.Hit? && Consistent(env, h) ==>
        && h'.index + round.passed >= Home(h)
        && MatchesAt(env, m, h.entries, h'.index + round.passed)
        && forall k | h'.index + round.passed < k <= h.index :: !MatchesAt(env, m, h.entries, k))
    && (round.Stop? && Consistent(env, h) ==>
        forall k: nat | Home(h) <= k <= h.index :: !MatchesAt(env, m, h.entries, k))
    && (round.Back? ==> round.togo > 0 && round.passed == 1 - round.togo && round.togo <= h'.index)
    && (round.Back? && Consistent(env, h) ==>
        && Home(Go(h', 0 - round.togo)) == Home(h)
        && forall k | h'.index - round.togo < k <= h.index :: !MatchesAt(env, m, h.entries, k))
  }

  /** The round of `scan` past the current href of a wrapped entry: the cache, then the stop or the step back. */
  method ScanWrapped(env: Env, h: History, h': History, m: Matcher) returns (round: Round)
    requires Histories.Valid(h) && Histories.Valid(h') && h'.entries == h.entries && h'.index <= h.index
    requires IsWrappedLocation(Current(h')) && !Accepts(env, m, env.createHref(Current(h')))
    requires Consistent(env, h) ==> Home(h') == Home(h)
    requires Consistent(env, h) ==> forall k | h'.index < k <= h.index :: !MatchesAt(env, m, h.entries, k)
    ensures Means(env, h, h', m, round)
  {
    var meta := CurrentMeta(Current(h'));
    var reach := Reach(meta.cache, h'.index);
    var hit, passed := ScanCache(env, m, reach);
    if hit.Some? {
      ScanHit(env, h, h', m, hit.value, passed);
      return Hit(passed);
    }
    round := PastCache(env, h, h', m);
  }

  /** The end of a round whose cache holds no match: a stop, or a step back when the entry is deeper than its cache and the entries exist. */
  method PastCache(env: Env, h: History, h': History, m: Matcher) returns (round: Round)
    requires Histories.Valid(h) && Histories.Valid(h') && h'.entries == h.entries && h'.index <= h.index
    requires IsWrappedLocation(Current(h')) && !Accepts(env, m, env.createHref(Current(h')))
    requires var reach := Reach(CurrentMeta(Current(h')).cache, h'.index);
      forall k | 0 <= k < |reach| :: !Accepts(env, m, reach[k])
    requires Consistent(env, h) ==> Home(h') == Home(h)
    requires Consistent(env, h) ==> forall k | h'.index < k <= h.index :: !MatchesAt(env, m, h.entries, k)
    ensures Means(env, h, h', m, round)
  {
    var meta := CurrentMeta(Current(h'));
    if meta.depth <= h'.index {
      AsWrittenMiss(env, h', m);
    }
    if meta.depth <= |meta.cache| || h'.index <= |meta.cache| {
      ScanMiss(env, h, h', m);
      return Stop;
    }
    var togo := |meta.cache| + 1;
    assert Reach(meta.cache, h'.index) == meta.cache;
    StepBack(env, h, h', m, togo);
    return Back(1 - togo, togo);
  }

  /**
    The cached hrefs that name entries which exist: the whole cache, or
    its newest `p` hrefs when it reaches back further than the `p` entries
    before position `p`.
   */
  function Reach(cache: seq<string>, p: nat): (r: seq<string>)
    ensures |r| <= p && |r| <= |cache|
    ensures |cache| <= p ==> r == cache
  {
    if |cache| <= p then cache else cache[|cache| - p..]
  }

  /** The position of the newest cached href `m` accepts, found from the end of the cache. */
  function NewestAccepted(env: Env, m: Matcher, cache: seq<string>): (r: Option<nat>)
    ensures r.Some? ==>
      && r.value < |cache| && Accepts(env, m, cache[r.value])
      && forall k | r.value < k < |cache| :: !Accepts(env, m, cache[k])
    ensures r.None? ==> forall k | 0 <= k < |cache| :: !Accepts(env, m, cache[k])
  {
    if |cache| == 0 then None
    else if Accepts(env, m, cache[|cache| - 1]) then Some(|cache| - 1)
    else NewestAccepted(env, m, cache[..|cache| - 1])
  }

  /**
    One round of the loop of `scan` as written: the same
    tests, but the whole cache is read and the step back is taken whenever
    the entry is deeper than its cache, whether or not that many entries
    exist before it.
   */
  function RoundAsWritten(env: Env, h': History, m: Matcher): (round: Round)
    requires Histories.Valid(h')
    ensures round.Hit? ==> 0 - |CurrentMeta(Current(h')).cache| <= round.passed <= 0
    ensures round.Back? ==>
      && round.togo == |CurrentMeta(Current(h')).cache| + 1 && round.passed == 1 - round.togo
      && CurrentMeta(Current(h')).depth >= round.togo
    ensures !round.Hit? ==> !Accepts(env, m, env.createHref(Current(h')))
  {
    if Accepts(env, m, env.createHref(Current(h'))) then Hit(0)
    else if !IsWrappedLocation(Current(h')) then Stop
    else
      var meta := CurrentMeta(Current(h'));
      var hit := NewestAccepted(env, m, meta.cache);
      if hit.Some? then Hit(hit.value - |meta.cache|)
      else if meta.depth <= |meta.cache| then Stop
      else Back(0 - |meta.cache|, |meta.cache| + 1)
  }

  /** On a grounded wrapped entry, the round as written hits where the search of the whole cache hits. */
  lemma AsWrittenHit(env: Env, h': History, m: Matcher, i: nat)
    requires Histories.Valid(h') && IsWrappedLocation(Current(h')) && !Accepts(env, m, env.createHref(Current(h')))
    requires CurrentMeta(Current(h')).depth <= h'.index
    requires var reach := Reach(CurrentMeta(Current(h')).cache, h'.index);
      && i < |reach| && Accepts(env, m, reach[i])
      && forall k | i < k < |reach| :: !Accepts(env, m, reach[k])
    ensures RoundAsWritten(env, h', m) == Hit(i - |CurrentMeta(Current(h')).cache|)
  {
    var cache := CurrentMeta(Current(h')).cache;
    assert Reach(cache, h'.index) == cache;
  }

  /** On a grounded wrapped entry whose cache holds no match, the round as written stops or steps back as the corrected one does. */
  lemma AsWrittenMiss(env: Env, h': History, m: Matcher)
    requires Histories.Valid(h') && IsWrappedLocation(Current(h')) && !Accepts(env, m, env.createHref(Current(h')))
    requires CurrentMeta(Current(h')).depth <= h'.index
    requires var reach := Reach(CurrentMeta(Current(h')).cache, h'.index);
      forall k | 0 <= k < |reach| :: !Accepts(env, m, reach[k])
    ensures var c := |CurrentMeta(Current(h')).cache|;
      RoundAsWritten(env, h', m) == if CurrentMeta(Current(h')).depth <= c then Stop else Back(0 - c, c + 1)
  {
    var cache := CurrentMeta(Current(h')).cache;
    assert Reach(cache, h'.index) == cache;
  }

  /**
    Where an entry claims no more levels than there are entries before it,
    the round as written stays on the history: a hit points at an entry and
    a step back lands where it aims.
   */
  lemma GroundedRoundInRange(env: Env, h': History, m: Matcher)
    requires Histories.Valid(h') && CurrentMeta(Current(h')).depth <= h'.index
    ensures var round := RoundAsWritten(env, h', m);
      && (round.Hit? ==> h'.index + round.passed >= 0)
      && (round.Back? ==> Go(h', 0 - round.togo).index == h'.index - round.togo)
  {
  }

  /**
    A history whose only entry claims one level but caches nothing, as a
    provider that drops its oldest entries can leave behind: for a target
    that entry does not match, the round as written steps back one entry,
    the provider has nowhere to go and stays on the same entry, and the
    next round is the same round again, so the loop never ends.
   */
  lemma UngroundedScanLoops(env: Env, m: Matcher, l: Location, a: Action)
    requires l.state == WrapState(Undefined, MetaState(1, [], Undefined))
    requires !Accepts(env, m, env.createHref(l))
    ensures var h := History([l], 0, a);
      && RoundAsWritten(env, h, m) == Back(0, 1)
      && Go(h, -1).entries == h.entries && Go(h, -1).index == h.index
      && RoundAsWritten(env, Go(h, -1), m) == RoundAsWritten(env, h, m)
  {
    assert MetaState(1, [], Undefined).Valid();
  }

  /**
    The inner loop of `scan`: the cached hrefs are tested newest first,
    each one lowering the offset by one, until one is accepted.
   */
  method ScanCache(env: Env, m: Matcher, cache: seq<string>) returns (hit: Option<nat>, delta: int)
    ensures hit.Some? ==>
      && hit.value < |cache| && Accepts(env, m, cache[hit.value])
      && delta == hit.value - |cache|
      && forall k | hit.value < k < |cache| :: !Accepts(env, m, cache[k])
    ensures hit.None? ==> delta == 0 - |cache| && forall k | 0 <= k < |cache| :: !Accepts(env, m, cache[k])
  {
    delta := 0;
    var i := |cache|;
    while i > 0
      invariant 0 <= i <= |cache|
      invariant delta == i - |cache|
      invariant forall k | i <= k < |cache| :: !Accepts(env, m, cache[k])
    {
      i := i - 1;
      delta := delta - 1;
      if Accepts(env, m, cache[i]) {
        return Some(i), delta;
      }
    }
    hit := None;
  }

  /**
    A cached href of a consistent entry is the href of the entry that many
    positions back: a hit in the cache points at a matching entry, and
    everything between it and the start was passed over.
   */
  lemma ScanHit(env: Env, h: History, h': History, m: Matcher, i: nat, n: int)
    requires Histories.Valid(h) && Histories.Valid(h') && h'.entries == h.entries && h'.index <= h.index
    requires IsWrappedLocation(Current(h'))
    requires var reach := Reach(CurrentMeta(Current(h')).cache, h'.index);
      && i < |reach| && Accepts(env, m, reach[i])
      && forall k | i < k < |reach| :: !Accepts(env, m, reach[k])
    requires !Accepts(env, m, env.createHref(Current(h')))
    requires Consistent(env, h) ==> forall k | h'.index < k <= h.index :: !MatchesAt(env, m, h.entries, k)
    requires Consistent(env, h) ==> Home(h') == Home(h)
    requires n == i - |Reach(CurrentMeta(Current(h')).cache, h'.index)|
    ensures n <= 0 && h'.index + n >= 0
    ensures CurrentMeta(Current(h')).depth <= h'.index ==> RoundAsWritten(env, h', m) == Hit(n)
    ensures Consistent(env, h) ==>
      && h'.index + n >= Home(h)
      && MatchesAt(env, m, h.entries, h'.index + n)
      && forall k | h'.index + n < k <= h.index :: !MatchesAt(env, m, h.entries, k)
  {
    var meta := CurrentMeta(Current(h'));
    var p := h'.index;
    if meta.depth <= p {
      AsWrittenHit(env, h', m, i);
    }
    if Consistent(env, h) {
      assert EntryConsistent(env, h.entries, p);
      assert Reach(meta.cache, p) == meta.cache;
      CacheHit(env, m, h.entries, meta.cache, p, h.index, i);
    }
  }

  /** A hit in a truthful cache names a matching entry, and the entries after it were passed over. */
  lemma CacheHit(env: Env, m: Matcher, entries: seq<Location>, cache: seq<string>, p: nat, top: nat, i: nat)
    requires p <= top < |entries| && Caches(env, cache, entries, p)
    requires i < |cache| && Accepts(env, m, cache[i]) && forall k | i < k < |cache| :: !Accepts(env, m, cache[k])
    requires !Accepts(env, m, env.createHref(entries[p]))
    requires forall k | p < k <= top :: !MatchesAt(env, m, entries, k)
    ensures MatchesAt(env, m, entries, p - |cache| + i)
    ensures forall k | p - |cache| + i < k <= top :: !MatchesAt(env, m, entries, k)
  {
    forall k | p - |cache| + i < k <= top
      ensures !MatchesAt(env, m, entries, k)
    {
      if k < p {
        CachedHref(env, cache, entries, p, k);
      }
    }
    CachedHref(env, cache, entries, p, p - |cache| + i);
  }

  /**
    Stepping back past the cache of a consistent entry deeper than its
    cache passes over only non-matching entries and stays within the same
    home.
   */
  lemma StepBack(env: Env, h: History, h': History, m: Matcher, togo: nat)
    requires Histories.Valid(h) && Histories.Valid(h') && h'.entries == h.entries && h'.index <= h.index
    requires IsWrappedLocation(Current(h'))
    requires togo == |CurrentMeta(Current(h')).cache| + 1 && CurrentMeta(Current(h')).depth >= togo
    requires togo <= h'.index
    requires !Accepts(env, m, env.createHref(Current(h')))
    requires forall k | 0 <= k < |CurrentMeta(Current(h')).cache| :: !Accepts(env, m, CurrentMeta(Current(h')).cache[k])
    requires Consistent(env, h) ==> Home(h') == Home(h)
    requires Consistent(env, h) ==> forall k | h'.index < k <= h.index :: !MatchesAt(env, m, h.entries, k)
    ensures Go(h', 0 - togo).index == h'.index - togo
    ensures Consistent(env, h) ==> Home(Go(h', 0 - togo)) == Home(h)
    ensures Consistent(env, h) ==> forall k | h'.index - togo < k <= h.index :: !MatchesAt(env, m, h.entries, k)
  {
    var meta := CurrentMeta(Current(h'));
    var c := |meta.cache|;
    var p := h'.index;
    if Consistent(env, h) {
      assert EntryConsistent(env, h.entries, p);
      assert Caches(env, meta.cache, h.entries, p);
      ConsistentPrefix(env, h, p);
      DepthChain(env, h.entries, p, togo);
      forall k | p - togo < k <= h.index
        ensures !MatchesAt(env, m, h.entries, k)
      {
        if k < p {
          CachedHref(env, meta.cache, h.entries, p, k);
        }
      }
    }
  }

  /** Where the scan stops without a match, no entry from home to the start matches. */
  lemma ScanMiss(env: Env, h: History, h': History, m: Matcher)
    requires Histories.Valid(h) && Histories.Valid(h') && h'.entries == h.entries && h'.index <= h.index
    requires !Accepts(env, m, env.createHref(Current(h')))
    requires IsWrappedLocation(Current(h')) ==>
      && (CurrentMeta(Current(h')).depth <= |CurrentMeta(Current(h')).cache| || h'.index <= |CurrentMeta(Current(h')).cache|)
      && var reach := Reach(CurrentMeta(Current(h')).cache, h'.index);
         forall k | 0 <= k < |reach| :: !Accepts(env, m, reach[k])
    requires Consistent(env, h) ==> Home(h') == Home(h)
    requires Consistent(env, h) ==> forall k | h'.index < k <= h.index :: !MatchesAt(env, m, h.entries, k)
    ensures Consistent(env, h) ==> forall k: nat | Home(h) <= k <= h.index :: !MatchesAt(env, m, h.entries, k)
  {
    var meta := CurrentMeta(Current(h'));
    var c := |meta.cache|;
    var p := h'.index;
    if Consistent(env, h) {
      assert EntryConsistent(env, h.entries, p);
      assert Caches(env, meta.cache, h.entries, p);
      assert Reach(meta.cache, p) == meta.cache;
      assert meta.depth == c by {
        assert meta.Valid();
      }
      forall k: nat | Home(h) <= k <= h.index
        ensures !MatchesAt(env, m, h.entries, k)
      {
        if k < p {
          CachedHref(env, meta.cache, h.entries, p, k);
        }
      }
    }
  }

  /**
    `findLast(match)`: scans, then steps forward again by `undo` and lets go
    of the suppression, so the position is where it started; the answer is
    the offset from there.
   */
  method FindLast(env: Env, h: History, s: Suppressor, m: Matcher)
    returns (delta: Delta, h': History, s': Suppressor, steps: seq<Step>)
    requires Histories.Valid(h)
    ensures Travel(steps) == 0 && forall i | 0 <= i < |steps| :: steps[i].call.RawGo?
    ensures Suppressors.Valid(s) ==> AllSuppressed(steps)
    ensures Histories.Valid(h') && h'.entries == h.entries && h'.index == h.index
    ensures s'.count == s.count && (Suppressors.Valid(s) ==> Suppressors.Valid(s'))
    ensures IsActive(s') == IsActive(s)
    ensures delta.Offset? ==> delta.n <= 0 && h.index + delta.n >= 0
    ensures Consistent(env, h) && delta.Offset? ==>
      && h.index + delta.n >= Home(h)
      && MatchesAt(env, m, h.entries, h.index + delta.n)
      && forall k | h.index + delta.n < k <= h.index :: !MatchesAt(env, m, h.entries, k)
    ensures Consistent(env, h) && delta.NotFound? ==>
      forall k: nat | Home(h) <= k <= h.index :: !MatchesAt(env, m, h.entries, k)
  {
    var r, h1, s1, moves := Scan(env, h, s, Some(m));
    delta, h', s', steps := r.delta, h1, s1, moves;
    if r.undo != 0 {
      TravelAppend(moves, Step(RawGo(r.undo), IsActive(s1)));
      steps := moves + [Step(RawGo(r.undo), IsActive(s1))];
      h' := Go(h1, r.undo);
      if delta.Offset? {
        delta := Offset(delta.n - r.undo);
      }
    }
    if r.resume.Some? {
      s' := Release(s1, r.resume.value);
    }
  }
}
