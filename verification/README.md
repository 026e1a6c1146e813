# app-history in Dafny

app-history layers an application history on top of a browser-style
history provider. It does not own the list of entries. Instead it stores a
small record `{depth, cache, cut?}` next to the caller's state in every
entry it creates. `depth` counts the steps back to the entry where the
application started ("home"). `cache` holds the hrefs of the entries just
behind, oldest first. `cut` marks the entries of a history cut. From these
records the library can go home, search backwards for a path, and cut off
the forward history. It never reads the provider's list directly.

The project models:

- the record codec: `isMetaState`, `isWrappedState`, `isWrappedLocation`,
  `wrapState`, `wrapLocation`, `unwrapLocation`, and the descriptor builders;
- the transition `nextMetaState` with its cache limit, and the composers
  `nextState` and `nextLocation`;
- the small state machines `Suppressor`, `Blocker`, `Notifier`,
  `createNotificationManager`, `Mutator`, `Tracker` and `Protector`;
- the algorithms over the provider's list: `Scanner`, `Goer` and `Cutter`.

The provider is a list of entries with a current position (`Histories`).
`push` truncates the forward entries, and `go` clamps to the list, as a
memory history does. `createHref` and the provider's parsing of paths and
descriptors are fields of an `Env`, left uninterpreted. Each `await` of a
raw provider call is recorded as a step. An operation's `Outcome` lists
its steps in order. The scan answers the steps back it made, and
`findLast` and `goBack` put them first in their own lists. A step records
the call and whether suppression was active while it ran.

The central invariant is `Histories.Consistent`. Every entry up to the
current one carries a record that tells the truth about the entries
behind it: its depth reaches back to a home entry, the entry before it is
one level shallower, and its cache holds exactly the hrefs of the entries
just before it. The proofs show that the library's own calls keep this
invariant:

- `push` and `replace` through the `Mutator`;
- a backward `go`;
- a cut;
- `goHome` and `goBack`.

Under the invariant, the scanner's answer is exact. A number points at
the nearest matching entry at or before the starting entry. NaN means
that no entry from home to the starting entry matches.

An entry is *grounded* when it claims no more levels than there are
entries before it; every entry of a consistent history is. The library's
scan assumes this and loops for ever on an entry that breaks it (see
Findings). The model's scan stops there instead and agrees with the
source, round by round, on grounded entries, so `scan`, `findLast` and
`goBack` are modelled on every history.

Modules follow the source files: `Values` and `Locations` hold the data
types, and `MetaStates`, `Wrapping`, `NextMeta`, `Suppressors`,
`Blockers`, `Registries` (shared by `Notifiers` and
`NotificationManagers`), `Mutators`, `Histories`, `Scanners`, `Goers`,
`Cutters`, `Trackers` and `Protectors` hold the operations.

## Model

| member | source | states |
|---|---|---|
| MetaStates.DecodeMeta | src/isMetaState.ts:18-30 | reading a stored value as a record succeeds exactly when the validator accepts it; the record read is valid (`depth >= |cache|`) and its fields are the stored depth, cache and cut |
| MetaStates.DecodeEncode | src/isMetaState.ts:24-26 | an encoded record is accepted exactly when `depth >= |cache|`, and then decoding gives the same record back |
| MetaStates.InitialIsMetaState | test/initialMetaState.spec.ts:5-9 | the initial record is accepted, with depth 0 and an empty cache |
| MetaStates.CutNotExamined | src/isMetaState.ts:22-26 | adding or changing a `cut` property never changes acceptance |
| MetaStates.NonObjectRejected | src/isMetaState.ts:21 | a value that is not an object is rejected |
| MetaStates.ValidatorCases | src/isMetaState.spec.ts:4-89 | depth -1, Infinity and 1.5, a cache longer than depth, a numeric cache element and a string cache are rejected; `{0, []}`, a full cache and a truncated cache are accepted |
| Wrapping.MetaOf | src/isWrappedState.ts:4-13 | a record is found exactly when the state is wrapped, and it is valid |
| Wrapping.CurrentMeta | src/nextMetaState.ts:21 | an unwrapped location counts as having the initial record; the result is always valid |
| Wrapping.WrapState | src/wrapState.ts:4-9 | the result has only `data` and `meta`, `data` is the given payload, and it is wrapped exactly when the record is valid, then with that record |
| Wrapping.WrapLocation | src/wrapLocation.ts:4-12 | the position fields are kept, the old state becomes the payload, and the result is wrapped with the initial record |
| Wrapping.UnwrapLocation | src/unwrapLocation.ts:4-16 | the position fields are kept; a wrapped location gets its payload back as state; any other location is returned unchanged |
| Wrapping.UnwrapWrap | src/unwrapLocation.ts:5-12 | unwrapping a wrapped location gives back the original location exactly |
| Wrapping.NonObjectNeverWrapped | src/isWrappedState.ts:7 | a state that is not an object is never wrapped |
| Wrapping.DataNotInspected | src/isWrappedState.ts:8-9 | replacing the payload never changes whether a state is wrapped |
| Wrapping.WrappedIgnoresPosition | src/isWrappedLocation.ts:4-6 | two locations with the same state are both wrapped or both not |
| Wrapping.WrappedLocationCases | src/isWrappedLocation.spec.ts:5-15 | no state and `{}` are not wrapped; `wrapState(null, initial)` is wrapped |
| Wrapping.CreateLocationDescriptor | src/createLocationDescriptor.ts:5-16 | hash, key, pathname and search are copied; the state is exactly the given one |
| Wrapping.CopyLocationDescriptor | src/copyLocationDescriptor.ts:5-16 | builds the same descriptor as `createLocationDescriptor` |
| Wrapping.DescriptorRestores | src/createLocationDescriptor.ts:9-15 | only the state is replaced: building again with the original state restores the descriptor |
| NextMeta.ApplyCacheLimit | src/nextMetaState.ts:30-35 | depth and cut stay; the cache keeps its newest `limit` hrefs when it is longer than a non-negative limit, and all of them otherwise |
| NextMeta.NextMetaState | src/nextMetaState.ts:5-63 | push: one level deeper, the current href appended, cut "before" exactly after "here"; pop: one level shallower but not below 0, newest href dropped, no cut; replace: depth, cache and cut kept; then the cache limit; the result is valid and within a non-negative limit |
| NextMeta.NextState | src/nextState.ts:5-12 | the result is wrapped, its payload is the given state and its record is `nextMetaState` of the current entry |
| NextMeta.NextLocation | src/nextLocation.ts:4-17 | the descriptor's position fields are kept, its state becomes the payload, and the record is `nextMetaState` of the current entry |
| NextMeta.NextLocationMetaIgnoresDescriptor | src/nextLocation.ts:15 | the record does not depend on the descriptor passed |
| NextMeta.UnboundedPushKeepsAll | src/nextMetaState.ts:31 | with a negative limit a push keeps the whole cache and appends the current href |
| NextMeta.PushFromUnwrapped | src/nextState.spec.ts:7-19 | a push from an unwrapped `/foo` gives `{depth 1, cache ["/foo"]}` and wraps the caller's state with it |
| NextMeta.PushedFromWrapped | src/nextMetaState.ts:10-48 | a push from a wrapped entry appends its href to its own record, one level deeper, then applies the limit |
| NextMeta.CacheLimitFirstPush | src/nextMetaState.spec.ts:10-32 | with limit 2 the first push from the initial record gives `{1, ["/foo"]}` |
| NextMeta.CacheLimitSecondPush | src/nextMetaState.spec.ts:18-37 | the second push gives `{2, ["/foo", "/bar"]}` |
| NextMeta.CacheLimitThirdPush | src/nextMetaState.spec.ts:21-42 | the third push evicts the oldest href: `{3, ["/bar", "/baz"]}` |
| Suppressors.NewSuppressor | src/Suppressor.ts:2 | a new suppressor satisfies the invariant and is inactive |
| Suppressors.Suppress | src/Suppressor.ts:8-11 | the count rises by one and a fresh live token is issued, which keeps the invariant and makes the suppressor active |
| Suppressors.Release | src/Suppressor.ts:12-17 | the first call of a live token lowers the count by one and kills the token; a dead token changes nothing; the invariant is kept |
| Suppressors.LiveCountClear | src/Suppressor.ts:13-15 | killing one live token lowers the number of live tokens by exactly one |
| Suppressors.CountNonNegative | src/Suppressor.ts:2-17 | under the invariant the count is never negative |
| Suppressors.ReleaseIdempotent | src/Suppressor.ts:13-16 | a second call of the same token changes nothing |
| Suppressors.ReleaseAll | src/Suppressor.ts:12-17 | releasing tokens in any order keeps the invariant |
| Suppressors.ReleasedStaysReleased | src/Suppressor.ts:13-16 | a token that was released, or is in the order released, is dead at the end |
| Suppressors.NoneLive | src/Suppressor.ts:2-6 | with no live token the count is 0 |
| Suppressors.AllReleasedInactive | src/Suppressor.ts:4-17 | once every issued token is released, in any order, the suppressor is inactive |
| Blockers.Check | src/Blocker.ts:14-22 | while suppressed the wrapper allows; otherwise a function prompt is asked and any other prompt is returned as it is |
| Blockers.Block | src/Blocker.ts:13-25 | exactly one wrapper is registered with the source, and its registration is returned |
| Blockers.SuppressionReadPerCall | src/Blocker.ts:14-15 | for every prompt and every suppressor: while a suppression taken by `suppress()` is held the wrapper allows, and once that token is released it answers exactly as before the suppression |
| Registries.EmptyValid | src/Notifier.ts:12-16 | a new registry satisfies the invariant: no listeners, no subscription, nothing kept |
| Registries.Listen | src/Notifier.ts:22-31 | a new wrapper under a fresh token is appended, active; the source subscription exists afterwards; the invariant is kept |
| Registries.IndexOf | src/Notifier.ts:72 | the first position of the token, or -1 exactly when it is absent |
| Registries.RemoveAt | src/Notifier.ts:74-75 | removing one entry of a list without repeats leaves exactly the other entries, without repeats |
| Registries.Unregister | src/Notifier.ts:33-36 | the wrapper is deactivated; a listed wrapper is removed from the list; an unlisted one leaves list and subscription alone |
| Registries.UnregisterValid | src/Notifier.ts:59-77 | unregistering keeps the invariant, so the subscription is dropped exactly when the list becomes empty, and removes exactly that wrapper |
| Registries.UnregisterIdempotent | src/Notifier.spec.ts:42-45 | calling an unregister handle a second time changes nothing |
| Registries.Fire | src/Notifier.ts:25-29 | only active wrappers call their callbacks; when all are active each is called once, in list order |
| Registries.NotifyAll | src/Notifier.ts:80-82 | under the invariant an event reaches every listed wrapper once, in registration order |
| Registries.OnSource | src/Notifier.ts:84-93 | while suppressing the event replaces the kept one and nobody is called; otherwise every listener is called once, in order |
| Registries.Suppress | src/Notifier.ts:39-51 | sets the flag; turning it off delivers a kept event to every listener once and forgets it, and delivers nothing when no event was kept |
| Registries.UnregisteredNeverFires | src/createNotificationManager.ts:65-78 | after its handle is called a wrapper never receives an event |
| Notifiers.OnSourceLocationChanged | src/Notifier.ts:84-93 | location and action are kept together while suppressing, else delivered together to every listener |
| Notifiers.ListenedTwice | src/Notifier.ts:22-31 | one callback registered twice gets two registrations under two tokens |
| Notifiers.RegisteredTwice | src/Notifier.spec.ts:33-41 | a callback registered twice is called twice per event |
| Notifiers.FirstHandleTwice | src/Notifier.spec.ts:42-45 | the first handle called twice removes one registration, so the callback is still called once per event |
| Notifiers.BothHandlesUnsubscribe | src/Notifier.ts:59-64 | once both handles are called the source subscription is dropped |
| Notifiers.DeferredWhileSuppressed | src/Notifier.spec.ts:26-30 | an event arriving while suppressed reaches nobody, is delivered once on resume, and not again on a second resume |
| NotificationManagers.PlainForgets | src/createNotificationManager.ts:16-26 | two locations look the same to a listener exactly when pathname, search and hash agree |
| NotificationManagers.OnHistoryChanged | src/createNotificationManager.ts:15-35 | every delivery carries the event's pathname, search and hash; while suppressed nothing is delivered and the location is kept |
| NotificationManagers.OnlyLastKept | src/createNotificationManager.ts:81-88 | of two locations arriving while suppressed only the last is delivered on resume, once to each listener |
| Mutators.NewMutatorValid | src/Mutator.ts:12 | a new mutator satisfies the invariant |
| Mutators.AtMostOnePending | src/Mutator.ts:22-33 | under the invariant at most one update promise is pending |
| Mutators.StartUpdate | src/Mutator.ts:20-35 | with an update pending the new promise is rejected for concurrent navigation and nothing else changes; otherwise it becomes pending, takes the slot and subscribes its listener; the invariant is kept |
| Mutators.ResolveAll | src/Mutator.ts:43-50 | exactly the listed promises are settled as resolved; the others are unchanged |
| Mutators.OnLocation | src/Mutator.ts:35-51 | a redirecting "here" entry seen unsuppressed changes nothing; any other event resolves the pending update, clears the slot and ends every subscribed listener |
| Mutators.SuppressedEventResolves | src/Mutator.ts:38 | while suppressed any event resolves the pending update |
| Mutators.ChangeWasBlockedAsWritten | src/Mutator.ts:79-83 | the code as written: the pending promise is rejected with no reason, the slot is cleared, the listener stays subscribed, and the mutator invariant is kept |
| Mutators.BlockedReasonLost | src/Mutator.ts:27-33 | as written the pending promise ends rejected without the "navigation was blocked" reason |
| Mutators.ChangeWasBlocked | src/Mutator.ts:79-83 | the pending promise is rejected with "navigation was blocked" and the slot cleared; with none pending nothing changes; the invariant is kept |
| Mutators.BlockedReasonKept | src/Mutator.ts:79-83 | corrected: the rejection carries the reason, and the listener is not removed |
| Mutators.StaleListenerHarmless | src/Mutator.ts:27-51 | after a blocked change a new update is accepted, and the next event resolves it while the blocked one stays rejected |
| Mutators.Destine | src/Mutator.ts:61-75 | a path goes with a `nextState` state and a descriptor keeps its position fields; either way the stored state is wrapped with the caller's payload and `nextMetaState` of the current entry |
| Mutators.PushCall | src/Mutator.ts:57-66 | `push` makes one raw push of the destination built for PUSH |
| Mutators.ReplaceCall | src/Mutator.ts:68-77 | `replace` makes one raw replace of the destination built for REPLACE |
| Mutators.MutatorReplaceStores | src/Mutator.ts:68-77 | after `replace` the current entry holds the caller's payload and the REPLACE record of the entry it replaced |
| Mutators.MutatorPushKeepsConsistent | src/Mutator.ts:57-66 | `push` keeps a consistent history consistent and stores the caller's payload |
| Mutators.MutatorReplaceKeepsConsistent | src/Mutator.ts:68-77 | `replace` keeps a consistent history consistent and stores the caller's payload |
| Histories.NewEntry | src/api/IHistory.ts:14-18 | the entry a destination becomes carries the state given with it |
| Histories.Push | src/api/IHistory.ts:14-15 | a push keeps the entries up to the current one, drops the forward ones, and appends the new entry as current |
| Histories.Replace | src/api/IHistory.ts:17-18 | a replace swaps the current entry only |
| Histories.Clamp | src/api/IHistory.ts:20 | a position out of the list is moved to its nearest end |
| Histories.Go | src/api/IHistory.ts:20 | `go` moves the position, clamped, and keeps the entries |
| Histories.GoThereAndBack | src/api/IHistory.ts:20 | a move within the list is undone by the opposite move |
| Histories.CachedHref | src/nextMetaState.ts:37-41 | a truthful cache holds the href of each entry it reaches back to |
| Histories.CachesSuffix | src/nextMetaState.ts:30-35 | the newest part of a truthful cache is truthful |
| Histories.ConsistentPrefix | src/nextMetaState.ts:37-63 | a consistent history is consistent up to every earlier position |
| Histories.ConsistentIsGrounded | src/nextMetaState.ts:37-63 | in a consistent history no entry claims more levels than there are entries before it |
| Histories.DepthChain | src/Goer.ts:102 | walking back `k` entries, no further than home, lowers the depth by exactly `k` |
| Histories.GoBackKeepsConsistent | src/api/IHistory.ts:20 | a backward `go` keeps a consistent history consistent |
| Histories.SamePrefixConsistent | src/nextMetaState.ts:37-63 | consistency up to a position depends only on the entries up to it |
| Histories.PushKeepsConsistent | src/nextMetaState.ts:37-48 | pushing an entry whose record is one level deeper, with the current href appended and the oldest evicted, keeps consistency |
| Histories.NewEntryConsistent | src/nextMetaState.ts:37-48 | such a pushed entry agrees with the entries before it |
| Histories.PushedEntry | src/nextMetaState.ts:37-48 | the same, over plain sequences of entries |
| Histories.PushedCaches | src/nextMetaState.ts:39 | the pushed cache is truthful for the new position |
| Histories.ReplaceKeepsConsistent | src/nextMetaState.ts:57-63 | replacing the current entry with one of the same depth and a newest part of its cache keeps consistency |
| Histories.ReplacedEntryConsistent | src/nextMetaState.ts:57-63 | such a replaced entry agrees with the entries before it |
| Histories.ReplacedEntry | src/nextMetaState.ts:57-63 | the same, over plain sequences of entries |
| Histories.PushUnwrappedKeepsConsistent | src/nextMetaState.ts:21 | pushing an unwrapped entry keeps consistency: it starts a new home |
| Histories.SameStateConsistent | src/Cutter.ts:41-48 | an entry with the same state after the same earlier entries stays consistent |
| Cutters.MakeBackOutLocation | src/Cutter.ts:8-13 | the result is a back-out location with the same position, and only its state differs |
| Cutters.BackOutNotWrapped | src/Cutter.ts:6-13 | a back-out entry is never wrapped |
| Cutters.Cut | src/Cutter.ts:22-53 | under one suppression: a clean cut when wrapped with depth > 0 (one step back, then a push of the copy without key), else a dirty cut (one push of the back-out copy); either way the history ends at the new current entry |
| Cutters.CleanCutHasRoom | src/Cutter.ts:30-39 | on a consistent history a clean cut never starts at the first entry |
| Cutters.CutKeepsConsistent | src/Cutter.ts:22-53 | a cut keeps a consistent history consistent |
| Scanners.Scan | src/Scanner.ts:19-79 | on every history: no target gives -1 and no movement; otherwise `undo` counts the steps back, suppression is taken exactly when one was made, and on a consistent history a number points at the nearest match at or before the start and NaN means no match from home to the start; its calls are one `go` backwards per step back, together going back by `undo`, each made while suppressed |
| Scanners.ScanFor | src/Scanner.ts:42-78 | the search loop, with the same guarantees as `scan` for a given target |
| Scanners.HoldOnce | src/Scanner.ts:65-67 | suppression is taken at most once across the rounds |
| Scanners.Retreat | src/Scanner.ts:65-74 | a step back takes the suppression if it is not yet held and records one more call, keeping what the scan holds and has recorded |
| Scanners.RecordBack | src/Scanner.ts:69-74 | the recorded call is a `go` back by `togo` made with the scan's suppression held; the earlier calls are kept, together the calls go back by `undo + togo`, and they stay all suppressed |
| Scanners.ScanEntry | src/Scanner.ts:43-74 | one round, corrected to stay on the history: it is the round as written wherever the entry claims no more levels than there are entries before it; a hit points at an existing entry and a step back never passes the first entry; on a consistent history a hit is the nearest match, a stop means no match from home on, and a step back passes `|cache|+1` non-matching entries within the same home |
| Scanners.ScanWrapped | src/Scanner.ts:51-75 | the part of a round past the current href of a wrapped entry, with the same guarantees as `ScanEntry` (bundled as `Means`) |
| Scanners.PastCache | src/Scanner.ts:61-75 | a round whose cache holds no match stops, or steps back when the entry is deeper than its cache and that many entries exist, with the same guarantees |
| Scanners.NewestAccepted | src/Scanner.ts:53-59 | the position of the newest accepted cached href, or none exactly when no cached href is accepted |
| Scanners.RoundAsWritten | src/Scanner.ts:43-74 | the round as written: a hit lies within the cache's reach, and a step back of `|cache|+1` is taken whenever the entry is deeper than its cache |
| Scanners.GroundedRoundInRange | src/Scanner.ts:53-74 | where an entry claims no more levels than there are entries before it, the round as written hits an existing entry and its step back lands where it aims |
| Scanners.UngroundedScanLoops | src/Scanner.ts:61-74 | on a one-entry history claiming depth 1 with an empty cache, the round as written steps back, the step leaves the provider where it was, and the next round is the same: the loop never ends |
| Scanners.AsWrittenHit | src/Scanner.ts:53-58 | on a grounded entry the round as written hits at the newest accepted cached href |
| Scanners.AsWrittenMiss | src/Scanner.ts:61-74 | on a grounded entry with no cache hit the round as written stops exactly when the entry is no deeper than its cache, and otherwise steps back `|cache|+1` |
| Scanners.CacheHit | src/Scanner.ts:53-58 | a hit in a truthful cache names a matching entry, and no entry after it up to the start matches |
| Scanners.ScanCache | src/Scanner.ts:53-59 | the cache is tested newest first, and the first hit is the newest accepted href, at offset `hit - |cache|` |
| Scanners.ScanHit | src/Scanner.ts:53-58 | a hit among the cached hrefs of existing entries names an existing entry and agrees with the round as written on a grounded entry; on a consistent history it names the entry at that distance, which matches and is the nearest one |
| Scanners.StepBack | src/Scanner.ts:61-74 | a step back of `|cache|+1` stays at or after home and passes only non-matching entries |
| Scanners.ScanMiss | src/Scanner.ts:47-63 | an unwrapped entry, or a cache that reaches home, with no hit means no entry from home on matches |
| Scanners.FindLast | src/Scanner.ts:81-94 | on every history: the position and the suppression are restored, and the answer is relative to the starting entry: the nearest match, or NaN when none from home on; its calls are `go`s, all suppressed, whose moves cancel out |
| Goers.DistanceToHome | src/Goer.ts:102 | minus the depth of a wrapped current entry, 0 otherwise |
| Goers.DistanceLeadsHome | src/Goer.ts:102 | on a consistent history going that distance lands on the home entry, which has depth 0 |
| Goers.Go | src/Goer.ts:15 | one raw `go` of the given delta |
| Goers.GoForward | src/Goer.ts:73 | one step forward when there is a forward entry, none otherwise |
| Goers.GoHome | src/Goer.ts:75-100 | without a target the history is at home (unmoved when already there); with one the caller's payload is stored; the suppressor is left as found |
| Goers.GoHomeCalls | src/Goer.ts:81-99 | one `go` exactly when the distance is not 0, and one replace exactly when a target is given |
| Goers.GoHomeMove | src/Goer.ts:84-94 | the `go` home runs suppressed when a target is given |
| Goers.GoHomeReplace | src/Goer.ts:97-99 | the replace comes last, after the suppression is released |
| Goers.GoHomeLandsHome | src/Goer.ts:75-100 | on a consistent history `goHome` stays consistent and lands on an entry of depth 0 at the home position |
| Goers.ReplaceAt | src/Goer.ts:60-67 | one raw replace at the current position storing the caller's payload |
| Goers.Moved | src/Goer.ts:81-95 | no call for distance 0; otherwise one `go`, suppressed when held |
| Goers.GoBack | src/Goer.ts:17-71 | the calls start with the scan's `back` suppressed steps backwards (none without a target); a conditional target not found adds, when there were any, one suppressed step forward that cancels them, and returns false; otherwise one `go`, then a replace when a state is given or the target was not found, and no replace when no state is given and there is no target or (on a consistent history) the landing entry matches; the `go` is suppressed exactly when a replace follows; the replace writes the forced path (the path itself, or `createHref` of the partial location) when the target was not found, and otherwise the landed entry's own pathname, search, hash and key with the state, and always the latter when there is no target or it is a test; on a consistent history it lands on the nearest match from home to the start, and it lands on a non-matching entry only when no entry from home to the start matches, which for a path or location means landing at home and writing the forced path |
| Goers.GoToMatch | src/Goer.ts:44-70 | the successful branch of `goBack` after the scan: a path or location not found always leads to a replace writing the forced path, and a found target's replace writes the landed entry's own position; with the landing guarantees above |
| Goers.GoBackAfterScan | src/Goer.ts:44-70 | the scan's suppressed steps back followed by the move and replace, with every guarantee of a successful `goBack` |
| Goers.GoToFound | src/Goer.ts:49-68 | the landing position is the scan's answer, or home when not found; two calls exactly when a replace follows |
| Goers.GoToFoundMove | src/Goer.ts:49-55 | the `go` is suppressed exactly when a replace follows or suppression was already active |
| Goers.GoToFoundMoveOnly | src/Goer.ts:49-55 | without a replace the history only moves |
| Goers.GoToFoundReplace | src/Goer.ts:57-68 | the replace runs after the release and stores the effective state |
| Goers.GoToFoundWrites | src/Goer.ts:44-66 | the replace writes `to`, or `createHref(to)` for a partial location, when the target was not found, and otherwise `{...source.location, state}` at the landing |
| Goers.GoToFoundConsistent | src/Goer.ts:49-68 | the `go` and the replace keep a consistent history consistent |
| Goers.GoToFoundLanding | src/Goer.ts:44-55 | the landing entry lies between home and the start and is the nearest match, or home when not found |
| Goers.Landing | src/Goer.ts:44-55 | the same landing facts, stated on positions |
| Goers.UndoScan | src/Goer.ts:31-42 | going forward by `undo` and releasing restores the position and the suppressor; the calls are the scan's followed by one suppressed step forward, and their moves cancel out |
| Goers.ReplaceTarget | src/Goer.ts:60-67 | the replace stores the effective state |
| Goers.MoveThenReplace | src/Goer.ts:49-68 | without a replace one `go`; with one, a suppressed `go` followed by the replace |
| Goers.MoveThenReplaceCall | src/Goer.ts:57-66 | with a replace the second call is the mutator's replace of the target at the landing, which stays the current position |
| Goers.ReplaceWrites | src/Goer.ts:60-66 | a forced path is written as that path; otherwise the replace keeps the landed entry's pathname, search, hash and key |
| Goers.Hold | src/Goer.ts:49-53 | suppression is held exactly when a replace follows, taken once, and released otherwise |
| Trackers.NewTracker | src/Tracker.ts:10-24 | a new tracker takes the source's location and action, with depth 0 and no dirty cut |
| Trackers.Adopt | src/Tracker.ts:94-103 | the action is recorded and the location unwrapped; a wrapped entry gives its depth and `isAfterDirtyCut` exactly for cut "before"; an unwrapped one gives depth 0 and no dirty cut |
| Trackers.RedirectDelta | src/Tracker.ts:77-82 | back exactly when deeper than the entry, or equally deep after a dirty cut; forward otherwise |
| Trackers.OnLocationChanged | src/Tracker.ts:66-104 | a "here" entry seen unsuppressed is left by one suppressed step in that direction and the landing entry adopted; any other entry is adopted with the event's action |
| Trackers.UnwrappedResets | src/Tracker.ts:99-103 | an unwrapped entry gives depth 0, no dirty cut and the location as it is |
| Trackers.RedirectDirection | src/Tracker.ts:75-82 | a tracker shallower than the entry goes forward, a deeper one goes back |
| Trackers.SetupLocation | src/Tracker.ts:45-64 | a "here" entry is left forward, keeping the depth and setting the dirty cut; another wrapped entry is adopted; an unwrapped one is replaced by its wrapped copy when that is accepted, else left alone |
| Trackers.Start | src/Tracker.ts:30-36 | `start` sets up the location and then listens |
| Trackers.Stop | src/Tracker.ts:38-43 | `stop` stops listening and changes nothing else |
| Trackers.StartStop | src/Tracker.ts:30-43 | `stop` is idempotent, and stopping after `start` leaves only the setup's effect |
| Protectors.NewProtector | src/Protector.ts:10-12 | a new protector is idle with status "created" and no waiters |
| Protectors.StatusOf | src/Protector.ts:16-18 | "busy" exactly while busy, the idle status otherwise |
| Protectors.Enter | src/Protector.ts:69-77 | refused while busy (checked first) or after dispose unless ignored; a refusal changes nothing; otherwise the protector becomes busy |
| Protectors.Exit | src/Protector.ts:79-87 | not busy, the idle status set only when `then` is given, and every registered waiter called, the list kept |
| Protectors.WhenIdle | src/Protector.ts:58-67 | resolves at once exactly when not busy, else queues the resolver |
| Protectors.Sync | src/Protector.ts:20-35 | the function runs exactly when the enter succeeds, and then `exit` follows; a refused enter changes nothing and wakes nobody |
| Protectors.AsyncEnter | src/Protector.ts:37-50 | after a successful enter, "ready" mode with the tracker not ready starts it, and a successful start sets the status "ready"; a failed start skips the function |
| Protectors.AsyncExit | src/Protector.ts:51-53 | the `finally` exits and wakes every waiter |
| Protectors.NoOverlap | src/Protector.ts:89-93 | while an async call is pending every other call is refused as concurrent, and a `whenIdle` made meanwhile is woken by its exit |
| Protectors.DisposedStaysDisposed | src/Protector.ts:95-99 | after dispose only "any" mode runs; the others are refused and the status stays disposed |
| Protectors.IdleRuns | src/Protector.ts:69-87 | an idle, not disposed protector runs a call in every mode and is idle afterwards |

## Left out

- I/O, timing and the browser: the provider's raw functions are modelled by `Histories` with memory-history semantics; a browser's own `go` clamping and asynchronous event timing are not modelled.
- Promise scheduling: each `await` of a raw call is one sequential step that completes; concurrent interleavings other than those the `Protector` and `Mutator` refuse are not modelled.
- Reentrancy: a listener that calls back into the library while it is being notified is not modelled.
- `createHref` and the provider's parsing of paths and descriptors are uninterpreted functions of `Env`.
- JavaScript numbers beyond the finite reals, NaN and the infinities; `parseInt` on values of 1e21 and above; non-integer cache limits (the limit is an `int`).
- Null states: reading a null state, or a null `meta`, throws in JavaScript; every operation requires states that can be read (`Decodable`).
- RegExp and function targets are both a `Test` over hrefs; their difference (a RegExp's `lastIndex` state) is not modelled.
- `createExposedLocation` is not part of this model: notifier events carry the location as the source delivered it.
- `Suppressor.suppressWhile` and `tracker.ready` are not part of this model: `suppressWhile` is modelled as acquire, run, release, and `ready` is a parameter of `AsyncEnter`.
- src/createSource.ts and src/makeUserConfirmation.ts: factories over the external history library and `window.confirm`.
- src/createAppHistory.ts and src/createHistoryManager.ts: wiring of the parts, with no logic of their own beyond defaults.
- src/createNavigation.ts: a dispatcher that repeats `Mutator.push`/`replace`.
- src/createWrappedState.ts: a placeholder.
- The interface and constant files under src/api and the manager interfaces: used only as data shapes.
- The effects of a protected function's body, and the `this` it is applied to: the protector only records whether it ran.
- Trackers.SetupLocation: a failed wrapping replace is a parameter (`accepted`) rather than a modelled rejection.
- Trackers.OnLocationChanged: the redirect's landing entry is adopted with action POP, as the tracker hears its own suppressed step; the extra event's delivery order is not modelled.
- Scanners.Scan: the model's scan stops at the first entry where the library's would step back past it (see Findings); on histories where every entry claims no more levels than there are entries before it the two agree round by round.
- Scanners.FindLast: built on the corrected scan, so it ends on every history; the library's `findLast` inherits the endless loop described under Findings.
- Scanners.ScanFor: the offset of each round is computed from 0, matching the source, whose running `delta` is brought back to 0 by `delta += cache.length` after the `|cache|` decrements.
- Goers.GoBack: requires a suppressor whose counter equals its number of unreleased tokens, which every suppressor the library builds satisfies; it is built on the corrected scan (see Findings).

## Findings

| source | as written | input that shows it | evidently intended | confidence | as-written member | corrected member |
|---|---|---|---|---|---|---|
| src/Scanner.ts:61-74 | the scan steps back `cache.length + 1` entries whenever the entry is deeper than its cache, without asking whether that many entries exist; a provider that has dropped its oldest entries leaves such a history, the step back has nowhere to go, and the same round repeats for ever (in a browser the `go` fires no event, so the awaited update never settles) | one entry, current, whose state is wrapped with `{depth: 1, cache: []}`, and a target it does not match (Scanners.UngroundedScanLoops) | the scan stops with NaN where a step back would pass the first entry, and tests only the cached hrefs of entries that exist | medium, not executed | Scanners.RoundAsWritten | Scanners.ScanEntry |
| src/Mutator.ts:27-33 | the stored reject closure ignores its argument and calls `reject()`, so `changeWasBlocked` passes its "navigation was blocked" error to nobody | an update pending, then `changeWasBlocked()`: the update's promise rejects with `undefined` | the promise rejects with the "navigation was blocked" error | not executed | Mutators.ChangeWasBlockedAsWritten | Mutators.ChangeWasBlocked |
