/** JavaScript value types used by the emoji controller and its snapshot class. */
module Js {

  /** One UTF-16 code unit: JavaScript strings are sequences of these, and
      `.length` counts them (an emoji outside the BMP counts as two). */
  newtype CodeUnit = n: int | 0 <= n < 0x1_0000

  /** A JavaScript string. */
  type JsString = seq<CodeUnit>

  /** `T | undefined`. */
  datatype Optional<+T> = Undefined | Defined(val: T)

  /** `number | null`, as the DOM reports a selection bound. Only integral
      numbers are modelled. */
  datatype NullableNumber = Null | Num(n: int)

  /** JavaScript truthiness of a `number | null` (NaN is not modelled). */
  predicate Truthy(x: NullableNumber)
  {
    x.Num? && x.n != 0
  }

  /** The expression `x || 0`: it coalesces by truthiness, which for integers
      and null amounts to replacing null by 0 and keeping every number. */
  function OrZero(x: NullableNumber): (r: int)
    ensures r == (if x.Null? then 0 else x.n)
  {
    if Truthy(x) then x.n else 0
  }
}
