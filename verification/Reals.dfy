/** Signs of products of real numbers. */
module Reals {
  lemma NonNegativeFactor(u: real, m: real)
    requires u * m >= 0.0 && m > 0.0
    ensures u >= 0.0
  {
  }

  lemma PositiveFactor(u: real, m: real)
    requires u * m > 0.0 && m > 0.0
    ensures u > 0.0
  {
  }
}
