/** Facts about integer division by a positive divisor that the solver does not
    find on its own (they are non-linear in the divisor). */
module Arith {

  /** The quotient of a non-negative number brackets it from below. */
  lemma DivBounds(a: int, b: int)
    requires a >= 0 && b > 0
    ensures 0 <= (a / b) * b <= a < (a / b) * b + b
  {
    assert a == (a / b) * b + a % b;
  }

  /** A positive multiple of a positive number is at least that number. */
  lemma MulAtLeast(x: int, d: int)
    requires x >= 1 && d > 0
    ensures x * d >= d
  {
    assert x * d == (x - 1) * d + d;
  }

  /** Quotient and remainder are the only pair that decomposes `a`. */
  lemma DivModUnique(a: int, d: int, q: int, r: int)
    requires d > 0 && a == q * d + r && 0 <= r < d
    ensures a / d == q && a % d == r
  {
    var q0, r0 := a / d, a % d;
    assert a == q0 * d + r0;
    assert (q - q0) * d == r0 - r by {
      assert (q - q0) * d == q * d - q0 * d;
    }
    if q > q0 {
      MulAtLeast(q - q0, d);
    } else if q < q0 {
      MulAtLeast(q0 - q, d);
    }
  }

  /** A non-negative number below `m` whole divisors has a quotient below `m`. */
  lemma DivBelow(a: int, d: int, m: int)
    requires d > 0 && 0 <= a < m * d
    ensures a / d < m
  {
    DivBounds(a, d);
    var q := a / d;
    if q > m {
      MulAtLeast(q - m, d);
    }
  }
}
