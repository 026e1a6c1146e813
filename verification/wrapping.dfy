/**
  Wrapped states `{data, meta}`: the caller's payload plus the private
  meta-state. Covers `isWrappedState`, `isWrappedLocation`, `wrapState`,
  `wrapLocation`, `unwrapLocation` and the two descriptor builders.
 */
module Wrapping {
  import opened Values
  import opened Locations
  import opened MetaStates

  /**
    The states the validators can read without throwing: JavaScript throws
    when it destructures null, which happens for a null state and for an
    object state whose `meta` is null.
   */
  predicate Decodable(state: Value) {
    state != Null && (IsObjectType(state) ==> Prop(state, "meta") != Null)
  }

  /** `isWrappedState`: an object whose `meta` passes the meta-state validator. */
  predicate IsWrappedState(state: Value)
    requires Decodable(state)
  {
    IsObjectType(state) && IsMetaState(Prop(state, "meta"))
  }

  /** `isWrappedLocation`: the location's state is wrapped. */
  predicate IsWrappedLocation(l: Location)
    requires Decodable(l.state)
  {
    IsWrappedState(l.state)
  }

  /** The caller's payload inside a wrapped state. */
  function DataOf(state: Value): Value
    requires state != Null
  {
    Prop(state, "data")
  }

  /** The meta-state of a wrapped state, and None for any other state. */
  function MetaOf(state: Value): (r: Option<MetaState>)
    requires Decodable(state)
    ensures r.Some? <==> IsWrappedState(state)
    ensures r.Some? ==> r.value.Valid() && Prop(state, "meta") != Null
                        && Prop(Prop(state, "meta"), "depth") == NatValue(r.value.depth)
                        && Prop(Prop(state, "meta"), "cut") == r.value.cut
  {
    if IsWrappedState(state) then DecodeMeta(Prop(state, "meta")) else None
  }

  /** The meta-state a location counts as having: its own when wrapped, the initial one otherwise. */
  function CurrentMeta(l: Location): (m: MetaState)
    requires Decodable(l.state)
    ensures m.Valid()
    ensures !IsWrappedLocation(l) ==> m == InitialMetaState()
  {
    MetaOf(l.state).GetOr(InitialMetaState())
  }

  /** `wrapState(inner, meta)`: a fresh object holding exactly `data` and `meta`. */
  function WrapState(inner: Value, meta: MetaState): (r: Value)
    ensures r.Obj? && r.fields.Keys == {"data", "meta"}
    ensures Decodable(r)
    ensures DataOf(r) == inner
    ensures IsWrappedState(r) <==> meta.Valid()
    ensures meta.Valid() ==> MetaOf(r) == Some(meta)
  {
    DecodeEncode(meta);
    var r := Obj(map["data" := inner, "meta" := EncodeMeta(meta)]);
    assert Prop(r, "meta") == EncodeMeta(meta);
    r
  }

  /** `wrapLocation`: same position, the old state becomes the data of a fresh initial meta-state. */
  function WrapLocation(source: Location): (r: Location)
    ensures SamePosition(r, source)
    ensures Decodable(r.state) && IsWrappedLocation(r)
    ensures DataOf(r.state) == source.state
    ensures MetaOf(r.state) == Some(InitialMetaState())
  {
    Location(source.hash, source.pathname, source.search,
             WrapState(source.state, InitialMetaState()), source.key)
  }

  /** `unwrapLocation`: a wrapped location gets its payload back as state; any other location is returned as is. */
  function UnwrapLocation(input: Location): (r: Location)
    requires Decodable(input.state)
    ensures SamePosition(r, input)
    ensures IsWrappedLocation(input) ==> r.state == DataOf(input.state)
    ensures !IsWrappedLocation(input) ==> r == input
  {
    if IsWrappedState(input.state) then
      Location(input.hash, input.pathname, input.search, DataOf(input.state), input.key)
    else
      input
  }

  /** Unwrapping a wrapped location gives back the original location, state included. */
  lemma UnwrapWrap(l: Location)
    ensures UnwrapLocation(WrapLocation(l)) == l
  {
  }

  /** A state that is not an object is never wrapped. */
  lemma NonObjectNeverWrapped(state: Value)
    requires Decodable(state) && !IsObjectType(state)
    ensures !IsWrappedState(state)
  {
  }

  /** The payload is never inspected: replacing `data` does not change whether a state is wrapped. */
  lemma DataNotInspected(fields: map<string, Value>, x: Value)
    requires Decodable(Obj(fields))
    ensures Decodable(Obj(fields["data" := x]))
    ensures IsWrappedState(Obj(fields)) == IsWrappedState(Obj(fields["data" := x]))
  {
    assert Prop(Obj(fields), "meta") == Prop(Obj(fields["data" := x]), "meta");
  }

  /** Whether a location is wrapped depends on its state alone. */
  lemma WrappedIgnoresPosition(a: Location, b: Location)
    requires a.state == b.state && Decodable(a.state)
    ensures IsWrappedLocation(a) == IsWrappedLocation(b)
  {
  }

  /** A location with no state or an empty object as state is not wrapped; one holding `wrapState(null)` is. */
  lemma WrappedLocationCases(pos: Location)
    ensures Decodable(pos.(state := Undefined).state) && !IsWrappedLocation(pos.(state := Undefined))
    ensures Decodable(pos.(state := Obj(map[])).state) && !IsWrappedLocation(pos.(state := Obj(map[])))
    ensures IsWrappedLocation(pos.(state := WrapState(Null, InitialMetaState())))
  {
  }

  /** `createLocationDescriptor`: the source's position fields with the given state. */
  function CreateLocationDescriptor(source: Descriptor, state: Value): (r: Descriptor)
    ensures r.hash == source.hash && r.key == source.key
    ensures r.pathname == source.pathname && r.search == source.search
    ensures r.state == state
  {
    Descriptor(source.hash, source.key, source.pathname, source.search, state)
  }

  /** `copyLocationDescriptor`: the same field copy as `createLocationDescriptor`. */
  function CopyLocationDescriptor(source: Descriptor, state: Value): (r: Descriptor)
    ensures r == CreateLocationDescriptor(source, state)
  {
    Descriptor(source.hash, source.key, source.pathname, source.search, state)
  }

  /** Only the state is replaced: putting the original state back restores the descriptor. */
  lemma DescriptorRestores(source: Descriptor, state: Value)
    ensures CreateLocationDescriptor(CreateLocationDescriptor(source, state), source.state) == source
    ensures CopyLocationDescriptor(CopyLocationDescriptor(source, state), source.state) == source
  {
  }
}
