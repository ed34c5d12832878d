/** Facts about products and quotients that the proofs elsewhere name. */
module Arithmetic {
  lemma DivModUnique(n: int, d: nat, q: int, r: nat)
    requires d > 0 && r < d && q * d + r == n
    ensures n / d == q && n % d == r
  {
    var q' := n / d;
    assert (q' + 1) * d == q' * d + d && (q + 1) * d == q * d + d;
    if q' < q {
      LessMono(q' + 1, q, d);
      assert false;
    } else if q < q' {
      LessMono(q + 1, q', d);
      assert false;
    }
  }

  lemma LessMono(a: int, b: int, c: nat)
    requires a <= b
    ensures a * c <= b * c
  {
  }

  lemma NonNegative(a: nat, b: nat)
    ensures a * b >= 0
  {
  }

  lemma NonNegativeQuotient(a: nat, d: nat)
    requires d > 0
    ensures a / d >= 0
  {
  }
}
