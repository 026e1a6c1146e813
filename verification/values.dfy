/**
  The JSON-like values that the navigation history stores in every entry's
  `state`. Only the distinctions the library inspects are kept: `typeof`,
  property reads, arrays and strings, and JavaScript numbers including NaN
  and the infinities.
 */
module Values {

  datatype Option<+T> = None | Some(value: T) {
    function GetOr(default: T): T {
      match this
      case Some(v) => v
      case None => default
    }
  }

  /** A JavaScript number. Finite numbers are modelled exactly, as reals. */
  datatype Num = Finite(r: real) | NaN | PosInfinity | NegInfinity

  datatype Value =
    | Undefined
    | Null
    | Bool(b: bool)
    | Number(n: Num)
    | Str(s: string)
    | Arr(items: seq<Value>)
    | Obj(fields: map<string, Value>)

  /** `typeof v === "object"`: true for objects, arrays and null. */
  predicate IsObjectType(v: Value) {
    v.Null? || v.Arr? || v.Obj?
  }

  /**
    Reading property `k` of `v`. A missing property, and any property of a
    primitive, reads as undefined. Reading from null throws in JavaScript,
    so callers must rule it out.
   */
  function Prop(v: Value, k: string): Value
    requires v != Null
  {
    if v.Obj? && k in v.fields then v.fields[k] else Undefined
  }

  /** The number value of a natural number. */
  function NatValue(n: nat): Value {
    Number(Finite(n as real))
  }
}
