/**
  `Cutter`: drops the forward history at the current entry. A clean cut
  steps back one entry and pushes a copy of the current one; where that is
  not possible a dirty cut pushes a "back out" copy that the library will
  not stay on.
 */
module Cutters {
  import opened Values
  import opened Locations
  import opened MetaStates
  import opened Wrapping
  import opened Suppressors
  import opened Histories

  /** The state a back-out entry carries. */
  const NOGO: Value := Str("__NOGO__")

  /** `isBackOutLocation`. */
  predicate IsBackOutLocation(l: Location) {
    l.state == NOGO
  }

  /** `makeBackOutLocation`: the same location with the back-out state. */
  function MakeBackOutLocation(input: Location): (r: Location)
    ensures IsBackOutLocation(r)
    ensures SamePosition(r, input)
    ensures r.(state := input.state) == input
  {
    input.(state := NOGO)
  }

  /** A back-out entry is never wrapped: it does not belong to the application's stretch of history. */
  lemma BackOutNotWrapped(l: Location)
    ensures Decodable(MakeBackOutLocation(l).state)
    ensures !IsWrappedLocation(MakeBackOutLocation(l))
  {
  }

  /** `canMakeCleanCut`: the current entry is wrapped and not home. */
  predicate CanMakeCleanCut(l: Location)
    requires Decodable(l.state)
  {
    IsWrappedLocation(l) && MetaOf(l.state).value.depth > 0
  }

  /** The copy a clean cut pushes: the current entry without its key. */
  function CleanCopy(l: Location): Descriptor {
    ToDescriptor(l).(key := None)
  }

  /**
    `cut()`: the whole cut runs under one suppression. A clean cut is one
    step back and a push of the current entry's copy without key; a dirty
    cut is one push of its back-out copy. Either way the history ends at
    the new current entry.
   */
  function Cut(env: Env, h: History, s: Suppressor): (o: Outcome)
    requires Histories.Valid(h)
    ensures Histories.Valid(o.h)
    ensures o.s.count == s.count && (Suppressors.Valid(s) ==> Suppressors.Valid(o.s))
    ensures Suppressors.Valid(s) ==> forall i | 0 <= i < |o.steps| :: o.steps[i].suppressed
    ensures |o.h.entries| == o.h.index + 1
    ensures CanMakeCleanCut(Current(h)) ==>
      && o.steps == [Step(RawGo(-1), IsActive(Suppress(s).0)), Step(RawPush(DescriptorDest(CleanCopy(Current(h)))), IsActive(Suppress(s).0))]
      && Current(o.h).state == Current(h).state
    ensures CanMakeCleanCut(Current(h)) && h.index > 0 ==>
      && o.h.index == h.index
      && o.h.entries[..h.index] == h.entries[..h.index]
    ensures !CanMakeCleanCut(Current(h)) ==>
      && o.steps == [Step(RawPush(DescriptorDest(ToDescriptor(MakeBackOutLocation(Current(h))))), IsActive(Suppress(s).0))]
      && o.h.index == h.index + 1
      && o.h.entries[..h.index + 1] == h.entries[..h.index + 1]
      && IsBackOutLocation(Current(o.h))
  {
    var (held, token) := Suppress(s);
    var gate := IsActive(held);
    var released := Release(held, token);
    if CanMakeCleanCut(Current(h)) then
      var curr := CleanCopy(Current(h));
      var back := Histories.Go(h, -1);
      var pushed := Histories.Push(back, env, DescriptorDest(curr));
      assert h.index > 0 ==> pushed.entries[..h.index] == h.entries[..h.index] by {
        if h.index > 0 {
          assert pushed.entries[..h.index] == back.entries[..h.index];
        }
      }
      Outcome(pushed, released, [Step(RawGo(-1), gate), Step(RawPush(DescriptorDest(curr)), gate)])
    else
      var nogo := ToDescriptor(MakeBackOutLocation(Current(h)));
      Outcome(Histories.Push(h, env, DescriptorDest(nogo)), released, [Step(RawPush(DescriptorDest(nogo)), gate)])
  }

  /** On a consistent history a clean cut is always possible from a wrapped entry that is not home. */
  lemma CleanCutHasRoom(env: Env, h: History)
    requires Histories.Valid(h) && Consistent(env, h) && CanMakeCleanCut(Current(h))
    ensures h.index > 0
  {
    assert EntryConsistent(env, h.entries, h.index);
  }

  /** A cut keeps a consistent history consistent. */
  lemma CutKeepsConsistent(env: Env, h: History, s: Suppressor)
    requires Histories.Valid(h) && Consistent(env, h)
    ensures Consistent(env, Cut(env, h, s).h)
  {
    var o := Cut(env, h, s);
    var p := h.index;
    if CanMakeCleanCut(Current(h)) {
      CleanCutHasRoom(env, h);
      assert ConsistentUpTo(env, o.h.entries, p - 1) by {
        assert ConsistentUpTo(env, h.entries, p - 1) by {
          forall j | 0 <= j <= p - 1
            ensures EntryConsistent(env, h.entries, j)
          {
            assert EntryConsistent(env, h.entries, j);
          }
        }
        SamePrefixConsistent(env, h.entries, o.h.entries, p - 1);
      }
      assert EntryConsistent(env, h.entries, p);
      SameStateConsistent(env, h.entries, o.h.entries, p);
      forall j | 0 <= j <= p
        ensures EntryConsistent(env, o.h.entries, j)
      {
        if j < p {
          assert EntryConsistent(env, o.h.entries, j);
        }
      }
    } else {
      PushUnwrappedKeepsConsistent(env, h, DescriptorDest(ToDescriptor(MakeBackOutLocation(Current(h)))));
    }
  }
}
