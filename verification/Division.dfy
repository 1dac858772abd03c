/** Quotients, for divisors that are not constants. */
module Division {
  lemma DivIs(x: int, p: int, q: int, r: int)
    requires 0 <= r < p && x == q * p + r
    ensures x / p == q
  {
    assert x / p * p + x % p == x;
    assert (q - x / p) * p == x % p - r;
    assert q - x / p < 1 by {
      if q - x / p >= 1 {
        Grows(q - x / p, p);
        assert false;
      }
    }
    assert x / p - q < 1 by {
      if x / p - q >= 1 {
        Grows(x / p - q, p);
        assert false;
      }
    }
  }

  lemma Grows(d: int, p: int)
    requires d >= 1 && p > 0
    ensures d * p >= p
  {
  }
}
