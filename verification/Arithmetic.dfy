/** Arithmetic that several components use. */
module Arithmetic {

  function OneIf(b: bool): nat { if b then 1 else 0 }

  lemma NonNegativeProduct(a: real, b: real)
    requires a >= 0.0 && b >= 0.0
    ensures a * b >= 0.0
  {
  }
}
