/** Packing a frame rate into 32 bits: 18 for the numerator, 14 for the denominator (videoutils.c). */
module FrameRate {

  const WORD := 0x1_0000_0000
  const MAX_NUM := 0x4_0000   // 1 << 18
  const MAX_DEN := 0x4000     // 1 << 14

  /** x / m rounded up. */
  function CeilDiv(x: nat, m: nat): nat
    requires m > 0
  {
    (x + m - 1) / m
  }

  /** m is 2^a * 3^b * 5^c. */
  predicate Smooth(m: nat)
    requires m > 0
    decreases m
  {
    m == 1
    || (m % 2 == 0 && Smooth(m / 2))
    || (m % 3 == 0 && Smooth(m / 3))
    || (m % 5 == 0 && Smooth(m / 5))
  }

  /** The rounded-up quotient is the least number of steps of m that reaches x. */
  lemma CeilMeaning(x: nat, m: nat)
    requires m > 0
    ensures var q := CeilDiv(x, m); q * m >= x && (q - 1) * m < x
  {
    var q := CeilDiv(x, m);
    assert x + m - 1 == q * m + (x + m - 1) % m;
    assert (q - 1) * m == q * m - m;
  }

  lemma MulMonotone(a: int, b: int, m: nat)
    requires a <= b
    ensures a * m <= b * m
  {
  }

  lemma Regroup(a: int, b: int, c: int)
    ensures a * (b * c) == a * c * b
  {
  }

  lemma CeilUnique(x: nat, m: nat, r: nat)
    requires m > 0 && r * m >= x && (r - 1) * m < x
    ensures r == CeilDiv(x, m)
  {
    var q := CeilDiv(x, m);
    CeilMeaning(x, m);
    if r < q {
      MulMonotone(r, q - 1, m);
    } else if q < r {
      MulMonotone(q, r - 1, m);
    }
  }

  /** Rounding up twice is rounding up once. */
  lemma CeilTwice(x: nat, m: nat, f: nat)
    requires m > 0 && f > 0
    ensures m * f > 0 && CeilDiv(CeilDiv(x, m), f) == CeilDiv(x, m * f)
  {
    hide CeilDiv;
    var q: int := CeilDiv(x, m);
    var r: int := CeilDiv(q, f);
    CeilMeaning(x, m);
    CeilMeaning(q, f);
    MulMonotone(1, m, f);
    MulMonotone(q, r * f, m);
    MulMonotone((r - 1) * f, q - 1, m);
    Regroup(r, m, f);
    Regroup(r - 1, m, f);
    CeilUnique(x, m * f, r);
  }

  lemma SmoothTimes(m: nat, f: nat)
    requires m > 0 && Smooth(m) && (f == 2 || f == 3 || f == 5)
    ensures m * f > 0 && Smooth(m * f)
  {
    var p := m * f;
    assert p > 0;
    MultipleDivides(m, f);
  }

  lemma MultipleDivides(m: nat, f: nat)
    requires f == 2 || f == 3 || f == 5
    ensures (m * f) % f == 0 && m * f / f == m
  {
  }

  /** One more factor: the next quotient is the quotient by the larger divisor, and it is no larger. */
  lemma Refine(x: nat, m: nat, f: nat)
    requires m > 0 && (f == 2 || f == 3 || f == 5)
    ensures m * f > 0 && CeilDiv(CeilDiv(x, m), f) == CeilDiv(x, m * f)
  {
    CeilTwice(x, m, f);
  }

  lemma CeilShrinks(x: nat, f: nat)
    requires f == 3 || f == 5
    ensures CeilDiv(x, f) <= x
    ensures x >= 2 ==> CeilDiv(x, f) < x
    ensures x % f == 0 ==> x / f == CeilDiv(x, f)
    ensures x == 0 ==> CeilDiv(x, f) == 0
    ensures x > 0 ==> CeilDiv(x, f) > 0
  {
  }

  /** The packed word: the numerator above 14 bits for the denominator. */
  function MakeFrameRate(num: nat, den: nat): nat { num * MAX_DEN + den }

  /** Shifting and or-ing, as the macro does it, is this sum when the parts fit, and stays in the word. */
  lemma ShiftOrIsSum(n: bv32, d: bv32)
    requires n < 0x4_0000 && d < 0x4000
    ensures (n << 14) | d == n * 0x4000 + d
    ensures ((n << 14) | d) >> 14 == n && ((n << 14) | d) & 0x3fff == d
  {
  }

  lemma Unpack(n: nat, d: nat)
    requires n < MAX_NUM && d < MAX_DEN
    ensures MakeFrameRate(n, d) < WORD
    ensures MakeFrameRate(n, d) / MAX_DEN == n && MakeFrameRate(n, d) % MAX_DEN == d
  {
  }

  const TOP := WORD - 1

  /** Rounding up the largest word wraps to zero. That happens in the first round or not at all. */
  predicate Wraps(num: nat, den: nat) {
    && (num == TOP || den == TOP)
    && !(num % 5 == 0 && den % 5 == 0)
    && !(num % 3 == 0 && den % 3 == 0)
  }

  /** Halving with rounding up, in 32 bits. */
  function HalfUp(x: nat): nat { (x + 1) % WORD / 2 }

  lemma HalfUpMeaning(x: nat)
    requires x < WORD
    ensures HalfUp(x) == if x == TOP then 0 else CeilDiv(x, 2)
    ensures HalfUp(x) <= x && HalfUp(x) < TOP && (x >= 2 ==> HalfUp(x) < x) && (x == 0 ==> HalfUp(x) == 0)
  {
  }

  /** One round of the loop. */
  method Reduce(num: nat, den: nat) returns (n: nat, d: nat, ghost f: nat)
    requires num < WORD && den < WORD && (num >= MAX_NUM || den >= MAX_DEN)
    ensures f == 2 || f == 3 || f == 5
    ensures !Wraps(num, den) ==> n == CeilDiv(num, f) && d == CeilDiv(den, f)
    ensures n + d < num + den && n < TOP && d < TOP
    ensures (num == 0 ==> n == 0) && (den == 0 ==> d == 0)
    ensures Wraps(num, den) ==> (num == TOP ==> n == 0) && (den == TOP ==> d == 0)
  {
    hide CeilDiv, HalfUp;
    assert TOP % 2 == 1;
    if num % 5 == 0 && den % 5 == 0 {
      CeilShrinks(num, 5);
      CeilShrinks(den, 5);
      n, d, f := num / 5, den / 5, 5;
    } else if (num % 2 == 1 || den % 2 == 1) && num % 3 == 0 && den % 3 == 0 {
      CeilShrinks(num, 3);
      CeilShrinks(den, 3);
      n, d, f := num / 3, den / 3, 3;
    } else {
      HalfUpMeaning(num);
      HalfUpMeaning(den);
      n, d, f := HalfUp(num), HalfUp(den), 2;
    }
  }

  /** The packed pair is the input divided by one smooth number, both parts rounded up, unless the addition wraps;
      then a part that was at the top of the range comes out as zero. */
  method PackFrameRate(numerator: nat, denominator: nat) returns (w: nat, ghost n: nat, ghost d: nat, ghost m: nat)
    requires numerator < WORD && denominator < WORD
    ensures w < WORD && w / MAX_DEN == n < MAX_NUM && w % MAX_DEN == d < MAX_DEN
    ensures !Wraps(numerator, denominator) ==>
              m > 0 && Smooth(m) && n == CeilDiv(numerator, m) && d == CeilDiv(denominator, m)
    ensures Wraps(numerator, denominator) ==> (numerator == TOP ==> n == 0) && (denominator == TOP ==> d == 0)
    ensures numerator < MAX_NUM && denominator < MAX_DEN ==> n == numerator && d == denominator
  {
    hide CeilDiv, Smooth;
    var num: nat, den: nat := numerator, denominator;
    m := 1;
    Whole(numerator);
    Whole(denominator);
    while num >= MAX_NUM || den >= MAX_DEN
      invariant num < WORD && den < WORD
      invariant !Wraps(numerator, denominator) ==>
                  m > 0 && Smooth(m) && num == CeilDiv(numerator, m) && den == CeilDiv(denominator, m)
      invariant (num == numerator && den == denominator) || (num < TOP && den < TOP)
      invariant Wraps(numerator, denominator) && (num != numerator || den != denominator) ==>
                  (numerator == TOP ==> num == 0) && (denominator == TOP ==> den == 0)
      invariant numerator < MAX_NUM && denominator < MAX_DEN ==> num == numerator && den == denominator
      decreases num + den
    {
      ghost var f;
      num, den, f := Reduce(num, den);
      if !Wraps(numerator, denominator) {
        Refine(numerator, m, f);
        Refine(denominator, m, f);
        SmoothTimes(m, f);
        m := m * f;
      }
    }
    n, d := num, den;
    w := MakeFrameRate(num, den);
    Unpack(num, den);
  }

  lemma Whole(x: nat)
    ensures Smooth(1) && CeilDiv(x, 1) == x
  {
  }

  /** When the addition wraps no divisor explains the result, so the pair is faithful exactly when it does not. */
  lemma WrappedIsUnfaithful(m: nat)
    requires m > 0
    ensures CeilDiv(TOP, m) != 0
  {
    CeilMeaning(TOP, m);
  }

  /** One common divisor keeps the ratio: the cross products differ by less than one input. */
  lemma RatioError(num: nat, den: nat, m: nat)
    requires num > 0 && den > 0 && m > 0
    ensures var n, d := CeilDiv(num, m), CeilDiv(den, m);
            n > 0 && d > 0 && d * num < n * den + num && n * den < d * num + den
  {
    CeilMeaning(num, m);
    CeilMeaning(den, m);
    CrossProduct(num, den, m, CeilDiv(num, m), CeilDiv(den, m));
    CrossProduct(den, num, m, CeilDiv(den, m), CeilDiv(num, m));
  }

  lemma CrossProduct(x: nat, y: nat, m: nat, n: nat, d: nat)
    requires m > 0 && y > 0 && n * m < x + m && y <= d * m
    ensures n * y < d * x + y
  {
    MulMonotone(n * m, x + m - 1, y);
    MulMonotone(y, d * m, x);
    Expand(x, y, m, n, d);
    Negative(n * y - d * x - y, m);
  }

  lemma Expand(x: int, y: int, m: int, n: int, d: int)
    ensures (n * y - d * x - y) * m == n * m * y - d * m * x - y * m
    ensures (x + m - 1) * y == y * x + y * m - y
  {
  }

  lemma Negative(e: int, m: nat)
    requires e * m < 0
    ensures e < 0
  {
  }
}
