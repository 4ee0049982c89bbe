/** Products and quotients, one step at a time. */
module Arith {
  lemma MulAtLeast(x: int, b: int)
    requires x >= 1 && b > 0
    ensures x * b >= b
  {
    if x > 1 {
      MulAtLeast(x - 1, b);
      assert x * b == (x - 1) * b + b;
    }
  }

  lemma MulLe(a: int, b: int, c: int)
    requires a <= b && 0 <= c
    ensures a * c <= b * c
  {
  }

  lemma DivBoundsUnique(b: int, q: int, r: int, q': int, r': int)
    requires b > 0 && q * b + r == q' * b + r' && 0 <= r < b && 0 <= r' < b
    ensures q <= q'
  {
    assert (q - q') * b == q * b - q' * b;
    if q - q' >= 1 {
      MulAtLeast(q - q', b);
    }
  }

  /** A quotient is characterised by its remainder. */
  lemma DivUnique(a: int, b: int, q: int, r: int)
    requires b > 0 && a == q * b + r && 0 <= r < b
    ensures a / b == q && a % b == r
  {
    var q', r' := a / b, a % b;
    assert a == q' * b + r' by {
      assert a == b * q' + r';
    }
    DivBoundsUnique(b, q, r, q', r');
    DivBoundsUnique(b, q', r', q, r);
  }

  // Ring identities, kept apart so that the solver meets one product at a time.

  lemma MulAssoc(a: int, b: int, c: int)
    ensures a * b * c == a * (b * c)
  {
  }

  lemma MulComm(a: int, b: int)
    ensures a * b == b * a
  {
  }

  lemma Distribute(a: int, b: int, c: int)
    ensures (a + b) * c == a * c + b * c
    ensures (a - b) * c == a * c - b * c
  {
  }
}
