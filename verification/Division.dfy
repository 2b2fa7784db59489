/** Quotients and remainders are determined by their defining equation. */
module Division {
  lemma Remainder(a: int, b: int, q: int, r: int)
    requires 0 <= r < b && a == b * q + r
    ensures a % b == r && a / b == q
  {
    assert b * (a / b) + a % b == a;
    SmallMultiple(b, a / b - q);
  }

  lemma SmallMultiple(b: int, k: int)
    requires 0 < b && -b < b * k < b
    ensures k == 0
  {
  }
}
