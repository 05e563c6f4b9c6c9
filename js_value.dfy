/**
 * The JavaScript values the scoring engine reads out of responses and answer
 * keys, with strict equality `===` and the conversion `Number(v)`.
 */
module JsValue {
  import opened JsNumber

  /**
   * A property value. `Obj(text)` is an array or object; `text` is what
   * `String()` makes of it. Objects only ever meet authored scalars of an
   * answer key, so reference identity is not needed.
   */
  datatype Value =
    | Undefined
    | Null
    | Bool(b: bool)
    | Num(n: Number)
    | Str(s: string)
    | Obj(text: string)

  /** `a === b`. */
  function StrictEq(a: Value, b: Value): (eq: bool)
    ensures eq <==> a == b && !a.Obj? && a != Num(NaN)
  {
    match (a, b)
    case (Undefined, Undefined) => true
    case (Null, Null) => true
    case (Bool(x), Bool(y)) => x == y
    case (Num(x), Num(y)) => NumEq(x, y)
    case (Str(x), Str(y)) => x == y
    case _ => false
  }

  /** `Number(v)`. */
  function ToNumber(v: Value): (n: Number)
    ensures v.Num? ==> n == v.n
    ensures v.Str? ==> n == StringToNumber(v.s)
    ensures v == Undefined ==> n == NaN
    ensures v == Null || v == Bool(false) ==> n == Finite(0.0)
    ensures v == Bool(true) ==> n == Finite(1.0)
  {
    match v
    case Undefined => NaN
    case Null => Finite(0.0)
    case Bool(b) => Finite(if b then 1.0 else 0.0)
    case Num(n) => n
    case Str(s) => StringToNumber(s)
    case Obj(text) => StringToNumber(text)
  }
}
