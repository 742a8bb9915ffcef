/** The widths of machine words, and division by numbers that are not constants. */
module Arithmetic {
  const TWO_32: nat := 0x1_0000_0000
  const TWO_64: nat := 0x1_0000_0000_0000_0000

  lemma SmallMultiple(d: int, a: int)
    requires -d < d * a < d
    ensures a == 0
  {
  }

  /** Quotient and remainder are unique. */
  lemma DivModIs(x: nat, d: nat, q: nat, r: nat)
    requires x == d * q + r && r < d
    ensures x / d == q && x % d == r
  {
    assert d * (x / d - q) == r - x % d;
    SmallMultiple(d, x / d - q);
  }

  lemma SmallMod(value: nat, m: nat)
    requires m > 0
    ensures value % m == value <==> value < m
  {
  }
}
