/** Facts about products and quotients that the solver has to be told. */
module Arithmetic {
  lemma MulMonotone(a: nat, b: nat, c: nat)
    requires b <= c
    ensures a * b <= a * c
  {
  }

  lemma QuotientZero(n: nat, d: nat)
    requires d > 0
    ensures n / d == 0 <==> n < d
  {
    if n >= d {
      assert n / d >= 1;
    }
  }
}
