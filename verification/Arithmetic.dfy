/** Facts of integer arithmetic that the solver needs in small pieces. */
module Arithmetic {

  lemma MulLe(a: int, b: int, c: int)
    requires a <= b && c >= 0
    ensures a * c <= b * c
  {
  }

  lemma SmallMod(x: nat, d: nat)
    requires x < d
    ensures x % d == x
  {
  }

  /** A quotient and remainder are determined by what they satisfy. */
  lemma DivModUnique(x: int, d: int, q: int, r: int)
    requires 0 <= r < d && x == q * d + r
    ensures x / d == q && x % d == r
  {
    var k := x / d - q;
    assert x == (x / d) * d + x % d;
    assert k * d == r - x % d;
    if k > 0 { MulLe(1, k, d); } else if k < 0 { MulLe(k, -1, d); }
  }
}
