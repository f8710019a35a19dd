/** Facts about integer multiplication and division that the solver does not
    find on its own. */
module Arith {

  lemma ProductPastDivisor(t: int, d: int)
    requires d > 0
    ensures t >= 1 ==> t * d >= d
    ensures t <= -1 ==> t * d <= -d
  {
    if t >= 1 {
      assert (t - 1) * d >= 0;
    } else if t <= -1 {
      assert (-t - 1) * d >= 0;
    }
  }

  /** Two quotients that leave remainders differing by less than `d` coincide. */
  lemma QuotientUnique(m: int, q: int, d: int)
    requires d > 0
    requires -d < (m - q) * d < d
    ensures m == q
  {
    ProductPastDivisor(m - q, d);
  }

  /** Adding one divisor to a non-negative dividend adds one to the quotient. */
  lemma DivShift(x: nat, d: int)
    requires d >= 1
    ensures (x + d) / d == x / d + 1
  {
    var q := x / d;
    var q' := (x + d) / d;
    assert (q + 1 - q') * d == (q + 1) * d - q' * d == (x - x % d + d) - ((x + d) - (x + d) % d);
    QuotientUnique(q + 1, q', d);
  }
}
