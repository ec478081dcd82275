/** Real numbers: magnitudes, powers and the signs of products. */
module Reals {

  function Fabs(x: real): real {
    if x < 0.0 then -x else x
  }

  function Power(x: real, k: nat): real {
    if k == 0 then 1.0 else x * Power(x, k - 1)
  }

  lemma PositiveProduct(a: real, b: real)
    requires a > 0.0 && b > 0.0
    ensures a * b > 0.0
  {
  }

  lemma NonNegativeProduct(a: real, b: real)
    requires a >= 0.0 && b >= 0.0
    ensures a * b >= 0.0
  {
  }

  lemma IntegerProduct(a: int, b: int)
    ensures (a * b) as real == a as real * b as real
  {
  }
}
