/** IEEE 754 double precision on natural numbers: 53 significant bits, round half to even (section 4.3.1). */
module Float64 {

  /** 2^53: up to here every natural number is a float64. */
  const EXACT := 0x20_0000_0000_0000

  function Pow2(n: nat): (p: nat)
    ensures p >= 1
  {
    if n == 0 then 1 else 2 * Pow2(n - 1)
  }

  lemma {:induction false} Pow2Grows(m: nat, n: nat)
    requires m <= n
    ensures Pow2(m) <= Pow2(n)
  {
    if m < n { Pow2Grows(m, n - 1); }
  }

  /**
   * Rounding of `n` plus one half (if `half`) plus something less than a half (if `sticky`): bits are shifted out until
   * 53 are left, then the last one shifted out decides, the others break ties, and a real tie goes to the even side.
   */
  function RoundBits(n: nat, half: bool, sticky: bool): nat
  {
    if n >= EXACT then 2 * RoundBits(n / 2, n % 2 == 1, half || sticky)
    else if half && (sticky || n % 2 == 1) then n + 1
    else n
  }

  /** Conversion of an integer, or of an exact product, to float64. */
  function Round(n: nat): nat
  {
    RoundBits(n, false, false)
  }

  function Float(n: int): int
  {
    if n >= 0 then Round(n) else - (Round(-n) as int)
  }

  /** Negative numbers are rounded like positive ones. */
  lemma FloatIsOdd(n: int)
    requires n >= 0
    ensures Float(n) == Round(n) && Float(-n) == -Float(n)
  {
  }

  lemma SmallIsExact(n: nat)
    requires n <= EXACT
    ensures Round(n) == n
  {
    assert RoundBits(EXACT / 2, false, false) == EXACT / 2;
  }

  /** Rounding moves a number up by at most one part in 2^53. */
  lemma {:induction false} RelativeErrorOf(n: nat, half: bool, sticky: bool)
    requires n >= EXACT / 2
    ensures 2 * EXACT * RoundBits(n, half, sticky) <= (EXACT + 1) * (2 * n + if half then 1 else 0)
  {
    if n >= EXACT { RelativeErrorOf(n / 2, n % 2 == 1, half || sticky); }
  }

  lemma RelativeError(n: nat)
    ensures EXACT * Round(n) <= (EXACT + 1) * n
  {
    if n >= EXACT { RelativeErrorOf(n, false, false); }
  }

  /** Nor down by more: what is shifted out counts as at most a half, or as one if more bits follow it. */
  lemma {:induction false} RelativeErrorBelowOf(n: nat, half: bool, sticky: bool)
    requires n >= EXACT / 2
    ensures 2 * EXACT * RoundBits(n, half, sticky) >= (EXACT - 1) * (2 * n + Bit(half) + Bit(sticky))
  {
    if n >= EXACT { RelativeErrorBelowOf(n / 2, n % 2 == 1, half || sticky); }
  }

  lemma RelativeErrorBelow(n: nat)
    ensures EXACT * Round(n) >= (EXACT - 1) * n
  {
    if n >= EXACT { RelativeErrorBelowOf(n, false, false); }
  }

  // ----- The reference: the nearest multiple of the last place -----

  /** `n` in units of `p`, rounded to the nearest whole number, and a tie to the even one. */
  function Nearest(n: nat, p: nat): nat
    requires p >= 1
  {
    var q, rest := n / p, n % p;
    if 2 * rest > p || (2 * rest == p && q % 2 == 1) then q + 1 else q
  }

  /** `unit` is the last place of `n`: it leaves 53 significant bits, or is 1 for a smaller number. */
  ghost predicate LastPlace(n: nat, unit: nat)
    requires unit >= 1
  {
    n / unit < EXACT && (unit > 1 ==> n / unit >= EXACT / 2)
  }

  /** `n` units of `p` and a remainder, of which `half` and `sticky` say all that matters. */
  ghost predicate Shifted(whole: nat, p: nat, n: nat, half: bool, sticky: bool)
    requires p >= 1
  {
    && whole / p == n
    && (half <==> 2 * (whole % p) >= p)
    && (sticky <==> if half then 2 * (whole % p) > p else whole % p > 0)
  }

  lemma ShiftOnce(whole: nat, p: nat, n: nat, half: bool, sticky: bool)
    requires p >= 1 && Shifted(whole, p, n, half, sticky)
    ensures Shifted(whole, 2 * p, n / 2, n % 2 == 1, half || sticky)
  {
    var rest := whole % p;
    assert whole == n * p + rest == n / 2 * (2 * p) + (n % 2 * p + rest) by { HalfAndBit(n, p); }
    QuotientIs(whole, 2 * p, n / 2, n % 2 * p + rest);
  }

  lemma HalfAndBit(n: nat, p: nat)
    ensures n * p == n / 2 * (2 * p) + n % 2 * p
  {
    var h, b := n / 2, n % 2;
    assert (2 * h + b) * p == h * (2 * p) + b * p;
  }

  lemma QuotientIs(whole: nat, p: nat, q: nat, rest: nat)
    requires whole == q * p + rest && rest < p
    ensures whole / p == q && whole % p == rest
  {
    var d := whole / p - q;
    assert d * p == whole / p * p - q * p;
    OnlyZeroFits(d, p);
  }

  lemma OnlyZeroFits(d: int, p: int)
    requires p >= 1 && -p < d * p < p
    ensures d == 0
  {
    AtLeastOneFactor(d, p);
  }

  lemma AtLeastOneFactor(d: int, p: int)
    requires p >= 1
    ensures (d >= 1 ==> d * p >= p) && (d <= -1 ==> d * p <= -p)
  {
  }

  lemma NearestByBits(whole: nat, p: nat, n: nat, half: bool, sticky: bool)
    requires p >= 1 && Shifted(whole, p, n, half, sticky)
    ensures Nearest(whole, p) == if half && (sticky || n % 2 == 1) then n + 1 else n
  {
  }

  lemma DoubledFactor(a: nat, p: nat)
    ensures (2 * a) * p == a * (2 * p)
  {
  }

  lemma {:induction false} RoundBitsIsNearest(whole: nat, p: nat, n: nat, half: bool, sticky: bool)
    returns (unit: nat)
    requires p >= 1 && Shifted(whole, p, n, half, sticky) && (p > 1 ==> n >= EXACT / 2)
    ensures unit >= 1 && LastPlace(whole, unit)
    ensures RoundBits(n, half, sticky) * p == Nearest(whole, unit) * unit
    decreases n
  {
    if n >= EXACT {
      ShiftOnce(whole, p, n, half, sticky);
      unit := RoundBitsIsNearest(whole, 2 * p, n / 2, n % 2 == 1, half || sticky);
      DoubledFactor(RoundBits(n / 2, n % 2 == 1, half || sticky), p);
    } else {
      unit := p;
      NearestByBits(whole, p, n, half, sticky);
    }
  }

  /** Shifting bits out and looking at three of them gives the nearest float64, ties going to the even one. */
  lemma RoundIsNearest(n: nat) returns (unit: nat)
    ensures unit >= 1 && LastPlace(n, unit) && Round(n) == Nearest(n, unit) * unit
  {
    unit := RoundBitsIsNearest(n, 1, n, false, false);
  }

  function Bit(b: bool): nat
  {
    if b then 1 else 0
  }

  /** A factor of two passes through rounding. */
  lemma Doubles(n: nat)
    ensures Round(2 * n) == 2 * Round(n)
  {
    if 2 * n >= EXACT { assert (2 * n) / 2 == n && (2 * n) % 2 == 0; }
  }

  lemma {:induction false} Scales(n: nat, k: nat)
    ensures Round(n * Pow2(k)) == Round(n) * Pow2(k)
  {
    if k > 0 {
      Scales(n, k - 1);
      Doubles(n * Pow2(k - 1));
      TwiceProduct(n, Pow2(k - 1));
      TwiceProduct(Round(n), Pow2(k - 1));
    }
  }

  lemma TwiceProduct(a: nat, p: nat)
    ensures a * (2 * p) == 2 * (a * p)
  {
  }

  lemma {:induction false} RoundedIsExact(n: nat, half: bool, sticky: bool)
    ensures Round(RoundBits(n, half, sticky)) == RoundBits(n, half, sticky)
  {
    if n >= EXACT {
      RoundedIsExact(n / 2, n % 2 == 1, half || sticky);
      Doubles(RoundBits(n / 2, n % 2 == 1, half || sticky));
    } else {
      SmallIsExact(RoundBits(n, half, sticky));
    }
  }

  /** What has been rounded is representable. */
  lemma Idempotent(n: nat)
    ensures Round(Round(n)) == Round(n)
  {
    RoundedIsExact(n, false, false);
  }

  lemma {:induction false} StaysLarge(n: nat, half: bool, sticky: bool)
    requires n >= EXACT
    ensures RoundBits(n, half, sticky) >= EXACT
  {
    if n / 2 >= EXACT { StaysLarge(n / 2, n % 2 == 1, half || sticky); }
  }

  lemma {:induction false} RoundBitsMonotone(m: nat, h: bool, s: bool, n: nat, h': bool, s': bool)
    requires 4 * m + 2 * Bit(h) + Bit(s) <= 4 * n + 2 * Bit(h') + Bit(s')
    ensures RoundBits(m, h, s) <= RoundBits(n, h', s')
    decreases n
  {
    if n >= EXACT {
      if m >= EXACT {
        RoundBitsMonotone(m / 2, m % 2 == 1, h || s, n / 2, n % 2 == 1, h' || s');
      } else {
        StaysLarge(n, h', s');
      }
    }
  }

  /** Rounding never reverses an order. */
  lemma RoundMonotone(m: nat, n: nat)
    requires m <= n
    ensures Round(m) <= Round(n)
  {
    RoundBitsMonotone(m, false, false, n, false, false);
  }

  lemma Shift(n: nat, half: bool, sticky: bool) returns (m: nat, h: bool, s: bool)
    requires n >= EXACT
    ensures m == n / 2 && RoundBits(n, half, sticky) == 2 * RoundBits(m, h, s)
  {
    m, h, s := n / 2, n % 2 == 1, half || sticky;
  }

  /** The 64-bit numbers that round up to 2^64 are exactly the top 1024; the others stay a whole step below. */
  lemma TopRoundsUp(n: nat)
    requires n <= 0xFFFF_FFFF_FFFF_FFFF
    ensures if n >= 0x1_0000_0000_0000_0000 - 1024 then Round(n) == 0x1_0000_0000_0000_0000
            else Round(n) <= 0x1_0000_0000_0000_0000 - 2048
  {
    if n < 0x8000_0000_0000_0000 {
      RelativeError(n);
    } else {
      var a, h, s := Shift(n, false, false);
      var b; b, h, s := Shift(a, h, s);
      var c; c, h, s := Shift(b, h, s);
      var d; d, h, s := Shift(c, h, s);
      var e; e, h, s := Shift(d, h, s);
      var f; f, h, s := Shift(e, h, s);
      var g; g, h, s := Shift(f, h, s);
      var i; i, h, s := Shift(g, h, s);
      var j; j, h, s := Shift(i, h, s);
      var k; k, h, s := Shift(j, h, s);
      assert Round(n) == 1024 * RoundBits(k, h, s);
      assert k == 2 * EXACT - 1 <==> n >= 0x1_0000_0000_0000_0000 - 1024;
      TopOf54(k, h, s);
    }
  }

  lemma TopOf54(n: nat, half: bool, sticky: bool)
    requires EXACT <= n < 2 * EXACT
    ensures if n == 2 * EXACT - 1 then RoundBits(n, half, sticky) == 2 * EXACT
            else RoundBits(n, half, sticky) <= 2 * EXACT - 2
  {
  }
}
