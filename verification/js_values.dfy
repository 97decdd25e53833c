/** JavaScript values as the portal's components see them in the records the
    server returns: numbers (possibly NaN), strings, booleans, null and undefined,
    together with the truthiness rule that every `x || fallback` in the views
    relies on. */
module JsValues {

  /** A value that may be absent (`null`/`undefined` field, missing response part). */
  datatype Option<+T> = None | Some(value: T)

  /** A JavaScript number as the result of `parseFloat`/`Number`: a real value or NaN.
      Infinities and negative zero are not modelled. */
  datatype Score = Num(v: real) | NaN

  /** `x >= t` for a JavaScript number `x` and a numeric threshold `t`:
      every comparison with NaN is false. */
  predicate AtLeast(x: Score, t: real) {
    x.Num? && x.v >= t
  }

  /** A field of a record received as JSON. API fields are taken to be
      scalars: objects and arrays are not modelled. */
  datatype JsValue =
    | Undefined
    | Null
    | Bool(b: bool)
    | Number(n: Score)
    | Str(s: string)

  /** JavaScript truthiness: `undefined`, `null`, `false`, `0`, NaN and `""` are falsy. */
  predicate Truthy(v: JsValue) {
    match v
    case Undefined => false
    case Null => false
    case Bool(b) => b
    case Number(n) => n.Num? && n.v != 0.0
    case Str(s) => s != ""
  }

  /** The expression `a || b`. */
  function Or(a: JsValue, b: JsValue): JsValue {
    if Truthy(a) then a else b
  }

  /** The JavaScript number zero. */
  const Zero: JsValue := Number(Num(0.0))
}
