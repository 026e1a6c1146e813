/**
  The raw history provider the library drives: a linear list of entries
  with a current position. `createHref` and the way a path or descriptor
  becomes a location belong to the provider and are parameters here.
 */
module Histories {
  import opened Values
  import opened Locations
  import opened MetaStates
  import opened Wrapping
  import Suppressors

  /** What a raw `push`/`replace` is given: a path with a state, or a location descriptor. */
  datatype Destination = PathDest(path: string, state: Value) | DescriptorDest(d: Descriptor)

  function StateOf(dest: Destination): Value {
    match dest
    case PathDest(_, state) => state
    case DescriptorDest(d) => d.state
  }

  /**
    The provider's external functions: `createHref` for locations and for
    descriptors, and the location a destination becomes (the provider
    parses paths and assigns keys).
   */
  datatype Env = Env(
    createHref: Location -> string,
    describe: Descriptor -> string,
    resolve: Destination -> Location)

  /** The entry a destination becomes; its state is the one given. */
  function NewEntry(env: Env, dest: Destination): (l: Location)
    ensures l.state == StateOf(dest)
  {
    env.resolve(dest).(state := StateOf(dest))
  }

  /** The entries, the current position and the action of the last change. */
  datatype History = History(entries: seq<Location>, index: nat, action: Action)

  /** Every entry's state can be read by the validators. */
  predicate AllDecodable(entries: seq<Location>) {
    forall i | 0 <= i < |entries| :: Decodable(entries[i].state)
  }

  predicate Valid(h: History) {
    h.index < |h.entries| && AllDecodable(h.entries)
  }

  function Current(h: History): Location
    requires Valid(h)
  {
    h.entries[h.index]
  }

  /** `push`: forward entries are dropped and the new entry becomes current. */
  function Push(h: History, env: Env, dest: Destination): (r: History)
    requires Valid(h) && Decodable(StateOf(dest))
    ensures Valid(r) && r.action == Action.Push
    ensures r.index == h.index + 1 && |r.entries| == h.index + 2
    ensures r.entries[..h.index + 1] == h.entries[..h.index + 1]
    ensures Current(r) == NewEntry(env, dest)
  {
    History(h.entries[..h.index + 1] + [NewEntry(env, dest)], h.index + 1, Action.Push)
  }

  /** `replace`: the current entry is overwritten in place. */
  function Replace(h: History, env: Env, dest: Destination): (r: History)
    requires Valid(h) && Decodable(StateOf(dest))
    ensures Valid(r) && r.action == Action.Replace
    ensures r.index == h.index && r.entries == h.entries[h.index := NewEntry(env, dest)]
  {
    History(h.entries[h.index := NewEntry(env, dest)], h.index, Action.Replace)
  }

  /** The position `go(delta)` reaches: the requested one, kept within the list. */
  function Clamp(i: int, n: nat): (r: nat)
    requires n > 0
    ensures r < n
    ensures 0 <= i < n ==> r == i
    ensures i < 0 ==> r == 0
    ensures i >= n ==> r == n - 1
  {
    if i < 0 then 0 else if i >= n then n - 1 else i
  }

  /** `go(delta)`: moves the position; the entries stay as they are. */
  function Go(h: History, delta: int): (r: History)
    requires Valid(h)
    ensures Valid(r) && r.entries == h.entries && r.action == Action.Pop
    ensures r.index == Clamp(h.index + delta, |h.entries|)
  {
    History(h.entries, Clamp(h.index + delta, |h.entries|), Action.Pop)
  }

  /** A move within the list is undone by the opposite move. */
  lemma GoThereAndBack(h: History, delta: int)
    requires Valid(h) && 0 <= h.index + delta < |h.entries|
    ensures Go(Go(h, delta), -delta) == h.(action := Action.Pop)
  {
  }

  /** One raw provider call. */
  datatype RawCall = RawPush(dest: Destination) | RawReplace(dest: Destination) | RawGo(delta: int)

  /** A raw call together with whether suppression was active while it ran. */
  datatype Step = Step(call: RawCall, suppressed: bool)

  /** The provider after a sequence of raw calls, the suppressor, and the calls made, in order. */
  datatype Outcome = Outcome(h: History, s: Suppressors.Suppressor, steps: seq<Step>)

  /** The position of the home entry of the current entry: as many entries back as its depth. */
  function Home(h: History): int
    requires Valid(h)
  {
    h.index - CurrentMeta(Current(h)).depth
  }

  /** The depth entry `j` carries. */
  function DepthAt(entries: seq<Location>, j: nat): nat
    requires j < |entries| && AllDecodable(entries)
  {
    CurrentMeta(entries[j]).depth
  }

  /**
    Entry `j` agrees with the entries before it: its depth counts the
    entries back to its home entry, the entry before it is one level
    shallower, and its cached hrefs are those of the entries just before it.
   */
  ghost predicate EntryConsistent(env: Env, entries: seq<Location>, j: nat)
    requires j < |entries| && AllDecodable(entries)
  {
    var m := CurrentMeta(entries[j]);
    && m.depth <= j
    && (m.depth > 0 ==> DepthAt(entries, j - 1) == m.depth - 1)
    && Caches(env, m.cache, entries, j)
  }

  /** `cache` holds the hrefs of the entries just before position `j`, oldest first. */
  ghost predicate Caches(env: Env, cache: seq<string>, entries: seq<Location>, j: nat)
    requires j < |entries|
  {
    |cache| <= j && forall i | 0 <= i < |cache| :: cache[i] == env.createHref(entries[j - |cache| + i])
  }

  /** A truthful cache holds the href of entry `k`, for each `k` it reaches back to. */
  lemma CachedHref(env: Env, cache: seq<string>, entries: seq<Location>, p: nat, k: int)
    requires p < |entries| && Caches(env, cache, entries, p) && p - |cache| <= k < p
    ensures 0 <= k && cache[k - p + |cache|] == env.createHref(entries[k])
  {
  }

  /** Consistency of a history covers every position up to the current one. */
  lemma ConsistentPrefix(env: Env, h: History, p: nat)
    requires Valid(h) && Consistent(env, h) && p <= h.index
    ensures ConsistentUpTo(env, h.entries, p)
  {
    forall j | 0 <= j <= p
      ensures EntryConsistent(env, h.entries, j)
    {
      assert EntryConsistent(env, h.entries, j);
    }
  }

  /** The newest part of a truthful cache is truthful. */
  lemma CachesSuffix(env: Env, cache: seq<string>, entries: seq<Location>, j: nat, n: nat)
    requires j < |entries| && Caches(env, cache, entries, j) && n <= |cache|
    ensures Caches(env, cache[|cache| - n..], entries, j)
  {
    var c := cache[|cache| - n..];
    forall i | 0 <= i < n
      ensures c[i] == env.createHref(entries[j - n + i])
    {
      assert c[i] == cache[|cache| - n + i];
    }
  }

  /** The entries up to position `k` all agree with the entries before them. */
  ghost predicate ConsistentUpTo(env: Env, entries: seq<Location>, k: nat)
    requires k < |entries| && AllDecodable(entries)
  {
    forall j | 0 <= j <= k :: EntryConsistent(env, entries, j)
  }

  /** The meta-state of every entry up to the current one describes the history truthfully. */
  ghost predicate Consistent(env: Env, h: History)
    requires Valid(h)
  {
    ConsistentUpTo(env, h.entries, h.index)
  }

  /** No entry up to the current one claims more levels than there are entries before it. */
  ghost predicate Grounded(h: History)
    requires Valid(h)
  {
    forall j | 0 <= j <= h.index :: DepthAt(h.entries, j) <= j
  }

  lemma ConsistentIsGrounded(env: Env, h: History)
    requires Valid(h) && Consistent(env, h)
    ensures Grounded(h)
  {
    forall j | 0 <= j <= h.index
      ensures DepthAt(h.entries, j) <= j
    {
      assert EntryConsistent(env, h.entries, j);
    }
  }

  /** Walking back `k` entries, no further than home, lowers the depth by exactly `k`. */
  lemma {:induction false} DepthChain(env: Env, entries: seq<Location>, p: nat, k: nat)
    requires p < |entries| && AllDecodable(entries) && ConsistentUpTo(env, entries, p)
    requires k <= DepthAt(entries, p)
    ensures k <= p && DepthAt(entries, p - k) == DepthAt(entries, p) - k
    decreases k
  {
    assert EntryConsistent(env, entries, p);
    if k > 0 {
      assert p >= 1;
      assert ConsistentUpTo(env, entries, p - 1) by {
        forall j | 0 <= j <= p - 1
          ensures EntryConsistent(env, entries, j)
        {
          assert EntryConsistent(env, entries, j);
        }
      }
      DepthChain(env, entries, p - 1, k - 1);
    }
  }

  /** Moving back within the list keeps every entry up to the new position consistent. */
  lemma GoBackKeepsConsistent(env: Env, h: History, delta: int)
    requires Valid(h) && Consistent(env, h) && delta <= 0
    ensures Consistent(env, Go(h, delta))
  {
  }

  /** Consistency up to `k` depends only on the entries up to `k`. */
  lemma SamePrefixConsistent(env: Env, a: seq<Location>, b: seq<Location>, k: nat)
    requires k < |a| && k < |b| && AllDecodable(a) && AllDecodable(b)
    requires a[..k + 1] == b[..k + 1]
    requires ConsistentUpTo(env, a, k)
    ensures ConsistentUpTo(env, b, k)
  {
    forall j | 0 <= j <= k
      ensures EntryConsistent(env, b, j)
    {
      assert EntryConsistent(env, a, j);
      forall i | 0 <= i <= j
        ensures b[i] == a[i]
      {
        assert a[..k + 1][i] == b[..k + 1][i];
      }
    }
  }

  /**
    Pushing a state built by `nextState` from the current entry for a push
    keeps the history consistent: the new entry is one level deeper and
    caches the hrefs of the entries just before it.
   */
  lemma PushKeepsConsistent(env: Env, h: History, dest: Destination, m: MetaState)
    requires Valid(h) && Consistent(env, h)
    requires Decodable(StateOf(dest)) && IsWrappedState(StateOf(dest))
    requires MetaOf(StateOf(dest)) == Some(m)
    requires m.depth == CurrentMeta(Current(h)).depth + 1
    requires |m.cache| <= |CurrentMeta(Current(h)).cache| + 1
    requires m.cache == (CurrentMeta(Current(h)).cache + [env.createHref(Current(h))])[|CurrentMeta(Current(h)).cache| + 1 - |m.cache|..]
    ensures Consistent(env, Push(h, env, dest))
  {
    var r := Push(h, env, dest);
    var p := h.index;
    SamePrefixConsistent(env, h.entries, r.entries, p);
    assert EntryConsistent(env, h.entries, p);
    assert forall i | 0 <= i <= p :: r.entries[i] == h.entries[i] by {
      forall i | 0 <= i <= p
        ensures r.entries[i] == h.entries[i]
      {
        assert r.entries[i] == r.entries[..p + 1][i];
      }
    }
    NewEntryConsistent(env, h, r, m);
    forall j | 0 <= j <= r.index
      ensures EntryConsistent(env, r.entries, j)
    {
      if j <= p {
        assert EntryConsistent(env, r.entries, j);
      }
    }
  }

  /** The entry pushed by `PushKeepsConsistent` agrees with the entries before it. */
  lemma NewEntryConsistent(env: Env, h: History, r: History, m: MetaState)
    requires Valid(h) && Valid(r) && EntryConsistent(env, h.entries, h.index)
    requires r.index == h.index + 1 && forall i | 0 <= i <= h.index :: r.entries[i] == h.entries[i]
    requires MetaOf(Current(r).state) == Some(m)
    requires m.depth == CurrentMeta(Current(h)).depth + 1
    requires |m.cache| <= |CurrentMeta(Current(h)).cache| + 1
    requires m.cache == (CurrentMeta(Current(h)).cache + [env.createHref(Current(h))])[|CurrentMeta(Current(h)).cache| + 1 - |m.cache|..]
    ensures EntryConsistent(env, r.entries, r.index)
  {
    var p := h.index;
    assert Current(h) == h.entries[p] && Current(r) == r.entries[p + 1];
    PushedEntry(env, h.entries, r.entries, p, CurrentMeta(h.entries[p]), m);
  }

  /** `NewEntryConsistent` on the entry lists, with the two meta-states named. */
  lemma PushedEntry(env: Env, a: seq<Location>, b: seq<Location>, p: nat, old_m: MetaState, m: MetaState)
    requires p < |a| && p + 1 < |b| && AllDecodable(a) && AllDecodable(b)
    requires forall i | 0 <= i <= p :: b[i] == a[i]
    requires CurrentMeta(a[p]) == old_m && CurrentMeta(b[p + 1]) == m
    requires old_m.depth <= p && Caches(env, old_m.cache, a, p)
    requires m.depth == old_m.depth + 1
    requires |m.cache| <= |old_m.cache| + 1 && m.cache == (old_m.cache + [env.createHref(a[p])])[|old_m.cache| + 1 - |m.cache|..]
    ensures EntryConsistent(env, b, p + 1)
  {
    assert DepthAt(b, p) == old_m.depth;
    PushedCaches(env, old_m.cache, a, b, p, m.cache);
  }

  /** The cache of a pushed entry: the newest part of the current one's, followed by the current entry's href. */
  lemma PushedCaches(env: Env, cache: seq<string>, a: seq<Location>, b: seq<Location>, p: nat, c: seq<string>)
    requires p < |a| && p + 1 < |b| && Caches(env, cache, a, p)
    requires forall i | 0 <= i <= p :: b[i] == a[i]
    requires |c| <= |cache| + 1 && c == (cache + [env.createHref(a[p])])[|cache| + 1 - |c|..]
    ensures Caches(env, c, b, p + 1)
  {
    var full := cache + [env.createHref(a[p])];
    assert Caches(env, full, b, p + 1) by {
      forall i | 0 <= i < |full|
        ensures full[i] == env.createHref(b[p + 1 - |full| + i])
      {
        if i < |cache| {
          assert full[i] == cache[i];
        }
      }
    }
    CachesSuffix(env, full, b, p + 1, |c|);
  }

  /**
    Replacing the current entry with a state whose meta-state has the
    current entry's depth and a newest part of its cache keeps the history
    consistent.
   */
  lemma ReplaceKeepsConsistent(env: Env, h: History, dest: Destination, m: MetaState)
    requires Valid(h) && Consistent(env, h)
    requires Decodable(StateOf(dest)) && IsWrappedState(StateOf(dest))
    requires MetaOf(StateOf(dest)) == Some(m)
    requires m.depth == CurrentMeta(Current(h)).depth
    requires |m.cache| <= |CurrentMeta(Current(h)).cache|
    requires m.cache == CurrentMeta(Current(h)).cache[|CurrentMeta(Current(h)).cache| - |m.cache|..]
    ensures Consistent(env, Replace(h, env, dest))
  {
    var r := Replace(h, env, dest);
    var p := h.index;
    assert EntryConsistent(env, h.entries, p);
    ReplacedEntryConsistent(env, h, r, m);
    forall j | 0 <= j <= p
      ensures EntryConsistent(env, r.entries, j)
    {
      if j < p {
        assert EntryConsistent(env, h.entries, j);
        assert h.entries[..j] == r.entries[..j];
        SameStateConsistent(env, h.entries, r.entries, j);
      }
    }
  }

  /** The entry written by `ReplaceKeepsConsistent` agrees with the entries before it. */
  lemma ReplacedEntryConsistent(env: Env, h: History, r: History, m: MetaState)
    requires Valid(h) && Valid(r) && EntryConsistent(env, h.entries, h.index)
    requires r.index == h.index && |r.entries| == |h.entries|
    requires forall i | 0 <= i < h.index :: r.entries[i] == h.entries[i]
    requires MetaOf(Current(r).state) == Some(m)
    requires m.depth == CurrentMeta(Current(h)).depth
    requires |m.cache| <= |CurrentMeta(Current(h)).cache|
    requires m.cache == CurrentMeta(Current(h)).cache[|CurrentMeta(Current(h)).cache| - |m.cache|..]
    ensures EntryConsistent(env, r.entries, r.index)
  {
    var p := h.index;
    assert Current(h) == h.entries[p] && Current(r) == r.entries[p];
    ReplacedEntry(env, h.entries, r.entries, p, CurrentMeta(h.entries[p]), m);
  }

  /** A replaced entry keeps its depth and a newest part of its cache, over the same earlier entries. */
  lemma ReplacedEntry(env: Env, a: seq<Location>, b: seq<Location>, p: nat, old_m: MetaState, m: MetaState)
    requires p < |a| && p < |b| && AllDecodable(a) && AllDecodable(b)
    requires forall i | 0 <= i < p :: b[i] == a[i]
    requires CurrentMeta(a[p]) == old_m && CurrentMeta(b[p]) == m
    requires old_m.depth <= p && (old_m.depth > 0 ==> DepthAt(a, p - 1) == old_m.depth - 1)
    requires Caches(env, old_m.cache, a, p)
    requires m.depth == old_m.depth
    requires |m.cache| <= |old_m.cache| && m.cache == old_m.cache[|old_m.cache| - |m.cache|..]
    ensures EntryConsistent(env, b, p)
  {
    if m.depth > 0 {
      assert b[p - 1] == a[p - 1];
    }
    assert Caches(env, old_m.cache, b, p) by {
      forall i | 0 <= i < |old_m.cache|
        ensures old_m.cache[i] == env.createHref(b[p - |old_m.cache| + i])
      {
        assert b[p - |old_m.cache| + i] == a[p - |old_m.cache| + i];
      }
    }
    CachesSuffix(env, old_m.cache, b, p, |m.cache|);
  }

  /** Pushing an entry whose state is not wrapped keeps the history consistent: it starts a new home. */
  lemma PushUnwrappedKeepsConsistent(env: Env, h: History, dest: Destination)
    requires Valid(h) && Consistent(env, h)
    requires Decodable(StateOf(dest)) && !IsWrappedState(StateOf(dest))
    ensures Consistent(env, Push(h, env, dest))
  {
    var r := Push(h, env, dest);
    forall j | 0 <= j <= r.index
      ensures EntryConsistent(env, r.entries, j)
    {
      if j <= h.index {
        assert EntryConsistent(env, h.entries, j);
        forall i | 0 <= i <= j
          ensures r.entries[i] == h.entries[i]
        {
        }
      }
    }
  }

  /** An entry whose state and predecessors are unchanged stays consistent. */
  lemma SameStateConsistent(env: Env, a: seq<Location>, b: seq<Location>, p: nat)
    requires p < |a| && p < |b| && AllDecodable(a) && AllDecodable(b)
    requires a[..p] == b[..p] && a[p].state == b[p].state
    requires EntryConsistent(env, a, p)
    ensures EntryConsistent(env, b, p)
  {
    assert CurrentMeta(a[p]) == CurrentMeta(b[p]);
    forall i | 0 <= i < p
      ensures a[i] == b[i]
    {
      assert a[..p][i] == b[..p][i];
    }
  }
}
