/** The values a parsed JSON request body can hold, with the two JavaScript conversions the
    handlers apply to them: truthiness (`!x`, `x || y`) and `String(x)`. */
module JsValues {
  import opened JsStrings

  /** A JavaScript number. Finite values are exact reals (floating-point rounding is not modelled);
      JSON parsing yields an infinity for a literal such as `1e400`. */
  datatype Number = Finite(value: real) | NaN | PositiveInfinity | NegativeInfinity

  /** A property of the body: `Undefined` when it is absent; `Composite` is an array or an object
      that `String()` converts, carrying the text it makes of it. */
  datatype JsValue =
    | Undefined
    | Null
    | Bool(b: bool)
    | Num(n: Number)
    | Str(s: string)
    | Composite(text: string)

  /** `Number.prototype.toString`, the rendering `String()` gives a number. It is a parameter:
      the shortest round-trip decimal rendering of doubles is not modelled. */
  type NumberText = Number -> string

  /** JavaScript truthiness: false, 0, NaN, "", null and undefined are falsy. */
  predicate Truthy(v: JsValue)
  {
    match v
    case Undefined => false
    case Null => false
    case Bool(b) => b
    case Num(n) => n.PositiveInfinity? || n.NegativeInfinity? || (n.Finite? && n.value != 0.0)
    case Str(s) => s != ""
    case Composite(_) => true
  }

  /** `a || b`. */
  function Or(a: JsValue, b: JsValue): JsValue
  {
    if Truthy(a) then a else b
  }

  /** `String(v)`. */
  function ToStr(v: JsValue, numberText: NumberText): string
  {
    match v
    case Undefined => "undefined"
    case Null => "null"
    case Bool(b) => if b then "true" else "false"
    case Num(n) => numberText(n)
    case Str(s) => s
    case Composite(text) => text
  }

  /** `Number.isFinite(v)`: true only of a number that is neither NaN nor infinite (no coercion). */
  predicate IsFiniteNumber(v: JsValue)
  {
    v.Num? && v.n.Finite?
  }

  /** `v > bound` for a number `v` (a comparison with NaN is false). */
  predicate NumberAbove(n: Number, bound: real)
  {
    match n
    case Finite(x) => x > bound
    case NaN => false
    case PositiveInfinity => true
    case NegativeInfinity => false
  }

  /** `v < bound` for a number `v`. */
  predicate NumberBelow(n: Number, bound: real)
  {
    match n
    case Finite(x) => x < bound
    case NaN => false
    case PositiveInfinity => false
    case NegativeInfinity => true
  }
}
