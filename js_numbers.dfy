/**
 * JavaScript numeric attribute values as far as the block uses them: a value is
 * `undefined`, `NaN` (what `parseInt` gives for a non-numeric string, and what
 * arithmetic on `undefined` gives) or an integer.
 */
module JsNumbers {
  datatype JsNumber = Undefined | NaN | Num(n: int)

  /** `x < y`: false whenever either side is `undefined` or `NaN`. */
  predicate Less(x: JsNumber, y: JsNumber) {
    x.Num? && y.Num? && x.n < y.n
  }

  /** `x > y`: false whenever either side is `undefined` or `NaN`. */
  predicate Greater(x: JsNumber, y: JsNumber) {
    x.Num? && y.Num? && x.n > y.n
  }

  /** `x - y`: `NaN` unless both sides are numbers. */
  function Minus(x: JsNumber, y: JsNumber): JsNumber {
    if x.Num? && y.Num? then Num(x.n - y.n) else NaN
  }

  /** `x === y`; `NaN` is not strictly equal to anything, itself included. */
  predicate StrictEquals(x: JsNumber, y: JsNumber) {
    (x.Num? && y.Num? && x.n == y.n) || (x.Undefined? && y.Undefined?)
  }

  /** No comparison involving `NaN` holds, and `NaN` is not even equal to itself. */
  lemma NaNComparesFalse(x: JsNumber)
    ensures !Less(NaN, x) && !Less(x, NaN) && !Greater(NaN, x) && !Greater(x, NaN)
    ensures !StrictEquals(NaN, x) && !StrictEquals(x, NaN)
  {
  }

  /** Subtracting from or with `undefined` gives `NaN`, which then compares false. */
  lemma UndefinedArithmeticIsNaN(x: JsNumber, y: JsNumber)
    ensures Minus(Undefined, x) == NaN && Minus(x, Undefined) == NaN
    ensures !Less(Minus(Undefined, x), y)
  {
  }
}
