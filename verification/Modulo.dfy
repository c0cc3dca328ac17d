/** Facts about integers that several modules need: the lesser of two, and remainders of wrapping counters. */
module Modulo {
  function Min(a: int, b: int): (m: int)
    ensures m <= a && m <= b && (m == a || m == b)
  {
    if a <= b then a else b
  }

  /** An integer as the 32-bit arithmetic of the program leaves it. */
  function Wrap32(x: int): (r: int)
    ensures -0x8000_0000 <= r < 0x8000_0000
  {
    (x + 0x8000_0000) % 0x1_0000_0000 - 0x8000_0000
  }

  lemma Wrap32Once(x: int)
    ensures -0x8000_0000 <= x < 0x8000_0000 ==> Wrap32(x) == x
    ensures 0x8000_0000 <= x < 0x1_8000_0000 ==> Wrap32(x) == x - 0x1_0000_0000
  {
  }

  lemma DivMod(x: int, n: nat)
    requires n > 0
    ensures x == x / n * n + x % n
  {
  }

  lemma ModUnique(x: int, n: nat, q: int, r: nat)
    requires n > 0 && x == q * n + r && r < n
    ensures x % n == r
  {
    var k := q - x / n;
    assert x == x / n * n + x % n;
    assert k * n == x % n - r;
    assert k >= 1 ==> k * n >= n;
    assert k <= -1 ==> k * n + n <= 0;
  }
}
