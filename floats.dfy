/**
 * IEEE-754 doubles as the model sees them: a finite value is an exact real,
 * and the non-finite values (NaN and the two infinities) are kept apart as
 * tags. Rounding is not modelled; all arithmetic on finite values is exact.
 */
module Floats {

  datatype F64 = Finite(val: real) | NaN | Infinity(negative: bool)

  /** `f64::is_finite`, i.e. neither `is_nan` nor `is_infinite`. */
  predicate IsFinite(x: F64) {
    x.Finite?
  }

  /** The real value of a finite double; meaningless (0.0) for the non-finite ones. */
  function Value(x: F64): real {
    if x.Finite? then x.val else 0.0
  }

  /** `f64::EPSILON`, the distance from 1.0 to the next double: 2^-52. */
  const EPSILON: real := 1.0 / 4503599627370496.0

  function Abs(x: real): (r: real)
    ensures r >= 0.0 && (r == x || r == -x)
  {
    if x < 0.0 then -x else x
  }

  /**
   * `(a - b).abs() < EPSILON` on doubles. A NaN or infinite operand makes the
   * difference NaN or infinite, and the comparison false.
   */
  function Close(a: F64, b: F64): (r: bool)
    ensures r ==> IsFinite(a) && IsFinite(b)
    ensures r <==> IsFinite(a) && IsFinite(b) && b.val - EPSILON < a.val < b.val + EPSILON
  {
    a.Finite? && b.Finite? && Abs(a.val - b.val) < EPSILON
  }
}
