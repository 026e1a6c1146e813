/**
  The bookkeeping record stored inside every entry the library creates:
  the depth from the home entry, a cache of the hrefs behind the entry
  (oldest first) and an optional cut marker. This module holds the
  validator `isMetaState` and the encoding of a record as a stored value.
 */
module MetaStates {
  import opened Values

  /** The cut marker of a tombstone entry. */
  const HERE: Value := Str("here")
  /** The cut marker of the entry pushed right after a tombstone. */
  const BEFORE: Value := Str("before")

  /**
    A decoded meta-state. `cut` keeps whatever value was stored (Undefined
    when absent): the library never validates it, only compares it with
    "here" and "before", and copies it on replace.
   */
  datatype MetaState = MetaState(depth: nat, cache: seq<string>, cut: Value) {
    /** The cache never reaches further back than the home entry. */
    predicate Valid() {
      depth >= |cache|
    }
  }

  /** Depth 0, empty cache, no cut. */
  function InitialMetaState(): MetaState {
    MetaState(0, [], Undefined)
  }

  /**
    `value >= 0 && value === parseInt(value, 10)`. Strict equality with the
    number parseInt returns rules out every non-number; NaN and the
    infinities fail (parseInt yields NaN for them), and so does every
    fractional or negative number.
   */
  predicate IsNonNegativeInteger(v: Value) {
    v.Number? && v.n.Finite? && v.n.r >= 0.0 && v.n.r.Floor as real == v.n.r
  }

  /** An array whose every element is a string. */
  predicate IsArrayOfStrings(v: Value) {
    v.Arr? && forall i | 0 <= i < |v.items| :: v.items[i].Str?
  }

  /** The validator: an object with a non-negative integer depth and a string-array cache no longer than depth. */
  predicate IsMetaState(state: Value)
    requires state != Null
  {
    && IsObjectType(state)
    && IsNonNegativeInteger(Prop(state, "depth"))
    && IsArrayOfStrings(Prop(state, "cache"))
    && Prop(state, "depth").n.r >= |Prop(state, "cache").items| as real
  }

  /** The stored form of a cache: an array of strings. */
  function EncodeCache(cache: seq<string>): Value {
    Arr(seq(|cache|, i requires 0 <= i < |cache| => Str(cache[i])))
  }

  /** The stored form of a meta-state; an absent cut is left out of the object. */
  function EncodeMeta(m: MetaState): Value {
    var fields := map["depth" := NatValue(m.depth), "cache" := EncodeCache(m.cache)];
    Obj(if m.cut == Undefined then fields else fields["cut" := m.cut])
  }

  /**
    Reads a stored value as a meta-state. It succeeds exactly when the
    validator accepts the value, and then the fields read are exactly the
    stored depth, cache and cut.
   */
  function DecodeMeta(v: Value): (r: Option<MetaState>)
    requires v != Null
    ensures r.Some? <==> IsMetaState(v)
    ensures r.Some? ==> r.value.Valid()
    ensures r.Some? ==> && Prop(v, "depth") == NatValue(r.value.depth)
                        && Prop(v, "cache") == EncodeCache(r.value.cache)
                        && Prop(v, "cut") == r.value.cut
  {
    if IsMetaState(v) then
      var items := Prop(v, "cache").items;
      var cache := seq(|items|, i requires 0 <= i < |items| => items[i].s);
      assert EncodeCache(cache) == Prop(v, "cache");
      Some(MetaState(Prop(v, "depth").n.r.Floor, cache, Prop(v, "cut")))
    else
      None
  }

  /** Encoding then decoding gives the record back exactly when it is valid. */
  lemma DecodeEncode(m: MetaState)
    ensures IsMetaState(EncodeMeta(m)) <==> m.Valid()
    ensures m.Valid() ==> DecodeMeta(EncodeMeta(m)) == Some(m)
  {
    var v := EncodeMeta(m);
    assert Prop(v, "depth") == NatValue(m.depth);
    assert Prop(v, "cache") == EncodeCache(m.cache);
    assert Prop(v, "cut") == m.cut;
    if m.Valid() {
      var d := DecodeMeta(v).value;
      assert d.cache == m.cache;
    }
  }

  /** The initial meta-state is accepted by the validator. */
  lemma InitialIsMetaState()
    ensures IsMetaState(EncodeMeta(InitialMetaState()))
    ensures InitialMetaState().depth == 0 && |InitialMetaState().cache| == 0
  {
    DecodeEncode(InitialMetaState());
  }

  /** Acceptance never depends on the `cut` property. */
  lemma CutNotExamined(fields: map<string, Value>, c: Value)
    ensures IsMetaState(Obj(fields)) == IsMetaState(Obj(fields["cut" := c]))
  {
    assert Prop(Obj(fields), "depth") == Prop(Obj(fields["cut" := c]), "depth");
    assert Prop(Obj(fields), "cache") == Prop(Obj(fields["cut" := c]), "cache");
  }

  /** A value that is not an object (and not null) is never a meta-state. */
  lemma NonObjectRejected(v: Value)
    requires v != Null && !IsObjectType(v)
    ensures !IsMetaState(v)
  {
  }

  /** The validator's accept and reject cases for depth and cache. */
  lemma ValidatorCases()
    ensures !IsMetaState(Obj(map["cache" := Arr([]), "depth" := Number(Finite(-1.0))]))
    ensures !IsMetaState(Obj(map["cache" := Arr([]), "depth" := Number(PosInfinity)]))
    ensures !IsMetaState(Obj(map["cache" := Arr([]), "depth" := Number(Finite(1.5))]))
    ensures !IsMetaState(Obj(map["cache" := Arr([Str("foo")]), "depth" := NatValue(0)]))
    ensures !IsMetaState(Obj(map["cache" := Arr([NatValue(123)]), "depth" := NatValue(0)]))
    ensures !IsMetaState(Obj(map["cache" := Str("foo"), "depth" := NatValue(0)]))
    ensures !IsMetaState(NatValue(0))
    ensures IsMetaState(Obj(map["cache" := Arr([]), "depth" := NatValue(0)]))
    ensures IsMetaState(Obj(map["cache" := Arr([Str("foo"), Str("bar"), Str("baz")]), "depth" := NatValue(3)]))
    ensures IsMetaState(Obj(map["cache" := Arr([Str("bar"), Str("baz")]), "depth" := NatValue(3)]))
  {
    var fr := Obj(map["cache" := Arr([Str("foo"), Str("bar"), Str("baz")]), "depth" := NatValue(3)]);
    assert Prop(fr, "cache").items[2].Str?;
    var tr := Obj(map["cache" := Arr([Str("bar"), Str("baz")]), "depth" := NatValue(3)]);
    assert Prop(tr, "cache").items[1].Str?;
    var nn := Obj(map["cache" := Arr([NatValue(123)]), "depth" := NatValue(0)]);
    assert !Prop(nn, "cache").items[0].Str?;
  }
}
