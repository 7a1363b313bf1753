/**
 * The two tolerances of the Vector/Matrix library and the scalar helpers
 * they are used with. Doubles are modelled as exact `real` values.
 */
module Numeric {

  /** Divisors smaller than this in magnitude are refused, and entries closer than this are equal. */
  const NEARLY_ZERO: real := 1e-10

  /** An entry whose ratio to the largest magnitude is below this is noise for `cleanup`. */
  const ZERO_TOLERANCE: real := 1e-12

  /** Absolute value, the model of `fabs` (and of `abs` applied to a double). */
  function Abs(x: real): (r: real)
    ensures r >= 0.0
    ensures r == x || r == -x
  {
    if x < 0.0 then -x else x
  }

  /** The cleanup ratio is stricter than the equality and division threshold. */
  lemma TolerancesOrdered()
    ensures 0.0 < ZERO_TOLERANCE < NEARLY_ZERO
  {
  }
}
