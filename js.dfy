/** JavaScript values as the handlers and scripts of the catalog see them:
    fields of a JSON request body, columns of a database row, properties
    of a plain object. Only the operations the modelled code applies to
    them are defined here: truthiness, the loose `== null` test, the
    `Number(...)` conversion and property lookup. */
module Js {

  /** A JavaScript number. Finite values are taken as exact reals: the
      rounding of IEEE doubles is not modelled. */
  datatype Number = Finite(value: real) | NaN | Infinity(positive: bool)

  /** The JSON-compatible scalar values that reach the modelled code. */
  datatype JsValue =
    | Undefined
    | Null
    | Bool(b: bool)
    | Num(n: Number)
    | Str(s: string)

  /** The outcome of an expression that may throw a TypeError, as
      `String.prototype.trim` does when it is called on a number. */
  datatype Result<T> = Ok(value: T) | TypeError

  /** A row or object: property name to value; a missing property reads as
      `undefined`. */
  type Record = map<string, JsValue>

  function Get(r: Record, field: string): (v: JsValue)
    ensures field !in r ==> v == Undefined
    ensures field in r ==> v == r[field]
  {
    if field in r then r[field] else Undefined
  }

  /** `!!v`: false for undefined, null, false, 0, NaN and "". */
  predicate Truthy(v: JsValue)
  {
    match v
    case Undefined => false
    case Null => false
    case Bool(b) => b
    case Num(n) => n != NaN && n != Finite(0.0)
    case Str(s) => s != ""
  }

  /** `v == null` (loose equality): true for undefined and null only. */
  predicate IsNullish(v: JsValue)
  {
    v == Undefined || v == Null
  }

  /** `Number(v)`. The conversion of a string follows JavaScript's numeric
      string grammar, which is not modelled: it is the parameter `parse`. */
  function ToNumber(v: JsValue, parse: string -> Number): Number
  {
    match v
    case Undefined => NaN
    case Null => Finite(0.0)
    case Bool(b) => if b then Finite(1.0) else Finite(0.0)
    case Num(n) => n
    case Str(s) => parse(s)
  }

  /** `.length` of a value: the length of a string, `undefined` otherwise. */
  function Length(v: JsValue): (len: Option<nat>)
    ensures len.Some? <==> v.Str?
    ensures v.Str? ==> len == Some(|v.s|)
  {
    if v.Str? then Some(|v.s|) else None
  }

  /** `v.length < n`: a comparison with `undefined` is false. */
  predicate LengthBelow(v: JsValue, n: nat)
  {
    match Length(v)
    case Some(len) => len < n
    case None => false
  }

  /** `v.length > n`: a comparison with `undefined` is false. */
  predicate LengthAbove(v: JsValue, n: nat)
  {
    match Length(v)
    case Some(len) => len > n
    case None => false
  }

  datatype Option<T> = None | Some(value: T)

  /** `Math.round` on a finite number: the nearest integer, halves rounded
      towards positive infinity. */
  function Round(x: real): (k: int)
    ensures k as real - 0.5 <= x < k as real + 0.5
  {
    (x + 0.5).Floor
  }
}
