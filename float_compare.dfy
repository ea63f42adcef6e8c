/**
 * Knuth's relative-tolerance comparisons used by the VP-tree searches
 * (`approximatelyEqual`, `definitelyLessThan`), over reals: the tolerance is
 * the larger magnitude times the machine epsilon of the operand type.
 */
module FloatCompare {

  /** `std::numeric_limits<float>::epsilon()`, 2^-23. */
  const FLT_EPSILON: real := 1.0 / 8388608.0
  /** `std::numeric_limits<double>::epsilon()`, 2^-52. */
  const DBL_EPSILON: real := 1.0 / 4503599627370496.0
  /** `std::numeric_limits<float>::max()`, (2 - 2^-23) * 2^127. */
  const FLT_MAX: real := 340282346638528859811704183484516925440.0

  /** `std::numeric_limits<double>::max()`, (2 - 2^-52) * 2^1023. */
  const DBL_MAX: real := 179769313486231570814527423731704356798070567525844996598917476803157260780028538760589558632766878171540458953514382464234321326889464182768467546703537516986049910576551282076245490090389328944075868508455133942304583236903222948165808559332123348274797826204144723168738177180919299881250404026184124858368.0

  function Abs(x: real): (r: real)
    ensures r >= 0.0 && (r == x || r == -x)
  {
    if x < 0.0 then -x else x
  }

  /** The larger of the two magnitudes, as the source's conditional picks it. */
  function Scale(a: real, b: real): (r: real)
    ensures r >= Abs(a) && r >= Abs(b) && (r == Abs(a) || r == Abs(b))
  {
    if Abs(a) < Abs(b) then Abs(b) else Abs(a)
  }

  predicate ApproximatelyEqual(a: real, b: real, eps: real)
  {
    Abs(a - b) <= Scale(a, b) * eps
  }

  predicate DefinitelyLessThan(a: real, b: real, eps: real)
  {
    b - a > Scale(a, b) * eps
  }

  /**
   * For a non-negative epsilon the two tests never both hold, and "definitely
   * less" implies plain "less"; every value is approximately equal to itself.
   */
  lemma ComparisonsExclusive(a: real, b: real, eps: real)
    requires eps >= 0.0
    ensures DefinitelyLessThan(a, b, eps) ==> a < b && !ApproximatelyEqual(a, b, eps)
    ensures ApproximatelyEqual(a, a, eps) && !DefinitelyLessThan(a, a, eps)
  {
    assert Scale(a, b) * eps >= 0.0;
    assert Scale(a, a) * eps >= 0.0;
  }
}
