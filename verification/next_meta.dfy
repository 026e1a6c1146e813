/**
  The meta-state transition `nextMetaState` and its composers `nextState`
  and `nextLocation`: the record written into a new entry is computed from
  the source's current entry and the kind of navigation.
 */
module NextMeta {
  import opened Values
  import opened Locations
  import opened MetaStates
  import opened Wrapping

  /**
    `kept` is what remains of `full` after the cache limit: the newest
    `limit` hrefs when `0 <= limit < |full|`, otherwise all of them.
   */
  ghost predicate KeepsNewest(full: seq<string>, kept: seq<string>, limit: int) {
    && |kept| == (if 0 <= limit < |full| then limit else |full|)
    && kept == full[|full| - |kept|..]
  }

  /** All of a cache but its newest href (`slice(0, -1)`). */
  function DropLast(cache: seq<string>): seq<string> {
    if |cache| == 0 then [] else cache[..|cache| - 1]
  }

  function AfterPush(meta: MetaState, path: string): MetaState {
    MetaState(meta.depth + 1, meta.cache + [path], if meta.cut == HERE then BEFORE else Undefined)
  }

  function AfterPop(meta: MetaState): MetaState {
    MetaState(if meta.depth > 0 then meta.depth - 1 else 0, DropLast(meta.cache), Undefined)
  }

  function AfterReplace(meta: MetaState): MetaState {
    MetaState(meta.depth, meta.cache, meta.cut)
  }

  /** `applyCacheLimit`: evicts the oldest hrefs until at most `limit` remain; a negative limit keeps all. */
  function ApplyCacheLimit(meta: MetaState, limit: int): (r: MetaState)
    ensures r.depth == meta.depth && r.cut == meta.cut
    ensures KeepsNewest(meta.cache, r.cache, limit)
  {
    if |meta.cache| > limit && limit >= 0 then
      meta.(cache := meta.cache[|meta.cache| - limit..])
    else
      meta
  }

  /** `nextMetaCore`: the record before the cache limit is applied. */
  function NextMetaCore(current: Location, createHref: Location -> string, action: Action): MetaState
    requires Decodable(current.state)
  {
    var meta := CurrentMeta(current);
    match action
    case Push => AfterPush(meta, createHref(current))
    case Pop => AfterPop(meta)
    case Replace => AfterReplace(meta)
  }

  /**
    `nextMetaState(source, action, cacheLimit)` for the source's current
    entry `current`. PUSH adds one level and caches the current href, and
    turns a "here" cut into "before"; POP removes one level (not below 0)
    and the newest cached href, and clears the cut; REPLACE keeps
    everything. An unwrapped entry counts as the initial meta-state. The
    result is always a valid meta-state.
   */
  function NextMetaState(current: Location, createHref: Location -> string, action: Action, limit: int): (r: MetaState)
    requires Decodable(current.state)
    ensures var m := CurrentMeta(current);
      && (action == Push ==>
            && r.depth == m.depth + 1
            && KeepsNewest(m.cache + [createHref(current)], r.cache, limit)
            && (r.cut == BEFORE <==> m.cut == HERE)
            && (r.cut == Undefined <==> m.cut != HERE))
      && (action == Pop ==>
            && r.depth == (if m.depth == 0 then 0 else m.depth - 1)
            && KeepsNewest(DropLast(m.cache), r.cache, limit)
            && r.cut == Undefined)
      && (action == Replace ==>
            && r.depth == m.depth && r.cut == m.cut
            && KeepsNewest(m.cache, r.cache, limit))
    ensures r.Valid()
    ensures limit >= 0 ==> |r.cache| <= limit
  {
    ApplyCacheLimit(NextMetaCore(current, createHref, action), limit)
  }

  /** `nextState`: the caller's state wrapped with the next meta-state. */
  function NextState(current: Location, createHref: Location -> string, action: Action, state: Value, limit: int): (r: Value)
    requires Decodable(current.state)
    ensures Decodable(r) && IsWrappedState(r)
    ensures DataOf(r) == state
    ensures MetaOf(r) == Some(NextMetaState(current, createHref, action, limit))
  {
    WrapState(state, NextMetaState(current, createHref, action, limit))
  }

  /** `nextLocation`: the descriptor's position fields, with its state wrapped by `nextState`. */
  function NextLocation(current: Location, createHref: Location -> string, action: Action, d: Descriptor, limit: int): (r: Descriptor)
    requires Decodable(current.state)
    ensures r.hash == d.hash && r.key == d.key && r.pathname == d.pathname && r.search == d.search
    ensures Decodable(r.state) && IsWrappedState(r.state)
    ensures DataOf(r.state) == d.state
    ensures MetaOf(r.state) == Some(NextMetaState(current, createHref, action, limit))
  {
    Descriptor(d.hash, d.key, d.pathname, d.search, NextState(current, createHref, action, d.state, limit))
  }

  /** The meta-state comes from the source's current entry: two descriptors get the same one. */
  lemma NextLocationMetaIgnoresDescriptor(current: Location, createHref: Location -> string, action: Action, d1: Descriptor, d2: Descriptor, limit: int)
    requires Decodable(current.state)
    ensures MetaOf(NextLocation(current, createHref, action, d1, limit).state)
         == MetaOf(NextLocation(current, createHref, action, d2, limit).state)
  {
  }

  /** Without a limit the cache is never trimmed: it holds one href per level pushed. */
  lemma UnboundedPushKeepsAll(current: Location, createHref: Location -> string, limit: int)
    requires Decodable(current.state) && limit < 0
    ensures NextMetaState(current, createHref, Push, limit).cache == CurrentMeta(current).cache + [createHref(current)]
  {
  }

  /** Pushing from an unwrapped `/foo` gives depth 1 and cache ["/foo"]. */
  lemma PushFromUnwrapped(current: Location, createHref: Location -> string)
    requires Decodable(current.state) && !IsWrappedLocation(current) && createHref(current) == "/foo"
    ensures NextMetaState(current, createHref, Push, -1) == MetaState(1, ["/foo"], Undefined)
    ensures NextState(current, createHref, Push, Str("bar"), -1) == WrapState(Str("bar"), MetaState(1, ["/foo"], Undefined))
  {
  }

  /** The meta-state pushed from an entry at `path` whose state wraps `m`, hrefs being pathnames. */
  function PushedFrom(m: MetaState, path: string, limit: int): MetaState {
    var l := Location("", path, "", WrapState(Null, m), None);
    NextMetaState(l, (x: Location) => x.pathname, Push, limit)
  }

  /** Pushing from a wrapped entry appends its href to its own cache, one level deeper. */
  lemma PushedFromWrapped(m: MetaState, path: string, limit: int)
    requires m.Valid()
    ensures PushedFrom(m, path, limit) == ApplyCacheLimit(AfterPush(m, path), limit)
  {
    var l := Location("", path, "", WrapState(Null, m), None);
    assert CurrentMeta(l) == m;
  }

  /** One push of the scenario below, with its expected result. */
  lemma PushedFromIs(m: MetaState, path: string, limit: int, expected: MetaState)
    requires m.Valid() && ApplyCacheLimit(AfterPush(m, path), limit) == expected
    ensures PushedFrom(m, path, limit) == expected
  {
    PushedFromWrapped(m, path, limit);
  }

  /** Three pushes with limit 2, first step: the initial record gains one level and one href. */
  lemma CacheLimitFirstPush()
    ensures PushedFrom(InitialMetaState(), "/foo", 2) == MetaState(1, ["/foo"], Undefined)
  {
    assert [] + ["/foo"] == ["/foo"];
    PushedFromIs(InitialMetaState(), "/foo", 2, MetaState(1, ["/foo"], Undefined));
  }

  /** Second step: the cache fills up to the limit. */
  lemma CacheLimitSecondPush()
    ensures PushedFrom(MetaState(1, ["/foo"], Undefined), "/bar", 2) == MetaState(2, ["/foo", "/bar"], Undefined)
  {
    PushedFromIs(MetaState(1, ["/foo"], Undefined), "/bar", 2, MetaState(2, ["/foo", "/bar"], Undefined));
  }

  /** Third step: the oldest href is evicted. */
  lemma CacheLimitThirdPush()
    ensures PushedFrom(MetaState(2, ["/foo", "/bar"], Undefined), "/baz", 2) == MetaState(3, ["/bar", "/baz"], Undefined)
  {
    assert (["/foo", "/bar"] + ["/baz"])[1..] == ["/bar", "/baz"];
    PushedFromIs(MetaState(2, ["/foo", "/bar"], Undefined), "/baz", 2, MetaState(3, ["/bar", "/baz"], Undefined));
  }
}
