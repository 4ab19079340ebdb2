/** When the hub answers "due" (internal/hubapi/handlers.go handleDue, internal/hubapi/jitter.go). */
module Due {
  import opened Basics
  import opened CertState
  import opened Float64

  const MAX_UINT64 := 0xFFFF_FFFF_FFFF_FFFF

  /** float64(math.MaxUint64) */
  const TWO_TO_64 := 0x1_0000_0000_0000_0000

  /**
   * The stable early-renewal offset of one certificate, from the 64-bit hash of its key, in float64 arithmetic: both
   * factors and their product are rounded, scaling by 2^64 is exact, and the result is truncated.
   */
  function JitterFor(hash: nat, maxJitter: int): nat
    requires hash <= MAX_UINT64
  {
    if maxJitter <= 0 then 0 else Round(Round(hash) * Round(maxJitter)) / TWO_TO_64
  }

  /** The decision taken before the lease is tried; `renewBefore` includes the jitter. */
  predicate IsDue(row: Option<Row>, now: int, renewBefore: int)
  {
    row.None? || row.value.notAfter.None? || row.value.notAfter.value - now < renewBefore
  }

  /** A rounded product of a representable factor and a hash below the top stays below the factor. */
  lemma ProductBelow(r: nat, m: nat)
    requires r <= TWO_TO_64 - 2048 && m >= 1
    ensures Round(r * m) < TWO_TO_64 * m
  {
    TimesMonotone(r, TWO_TO_64 - 2048, m);
    RelativeError(r * m);
    Below(r * m, Round(r * m), m);
  }

  lemma TimesMonotone(a: nat, b: nat, m: nat)
    requires a <= b
    ensures a * m <= b * m
  {
  }

  lemma Below(x: nat, rounded: nat, m: nat)
    requires m >= 1 && x <= (TWO_TO_64 - 2048) * m && EXACT * rounded <= (EXACT + 1) * x
    ensures rounded < TWO_TO_64 * m
  {
  }

  /** The offset stays below the float64 of the maximum for every hash but the top 1024, which reach it. */
  lemma JitterAgainstFloat(hash: nat, maxJitter: nat)
    requires hash <= MAX_UINT64 && maxJitter >= 1
    ensures if hash < TWO_TO_64 - 1024 then JitterFor(hash, maxJitter) < Round(maxJitter)
            else JitterFor(hash, maxJitter) == Round(maxJitter)
  {
    var m := Round(maxJitter);
    Positive(maxJitter);
    TopRoundsUp(hash);
    if hash < TWO_TO_64 - 1024 {
      ProductBelow(Round(hash), m);
    } else {
      ScaledUp(m);
      Idempotent(maxJitter);
      assert Round(hash) * m == m * TWO_TO_64;
    }
  }

  // ----- The offset is the hash's fraction of the maximum -----

  /**
   * For every hash and maximum the offset is hash / 2^64 of the maximum, to within four parts in 2^53, and rounded down
   * to a whole nanosecond.
   */
  lemma JitterIsFraction(hash: nat, maxJitter: int)
    requires hash <= MAX_UINT64
    ensures if maxJitter <= 0 then JitterFor(hash, maxJitter) == 0 else
      && EXACT * (TWO_TO_64 * JitterFor(hash, maxJitter)) <= (EXACT + 4) * (hash * maxJitter)
      && EXACT * (TWO_TO_64 * (JitterFor(hash, maxJitter) + 1)) > (EXACT - 3) * (hash * maxJitter)
  {
    if maxJitter > 0 {
      var r, m := Round(hash), Round(maxJitter);
      RelativeError(hash);
      RelativeError(maxJitter);
      RelativeError(r * m);
      ProductOfBounds(EXACT * r, (EXACT + 1) * hash, EXACT * m, (EXACT + 1) * maxJitter);
      RelativeErrorBelow(hash);
      RelativeErrorBelow(maxJitter);
      RelativeErrorBelow(r * m);
      ProductOfBounds((EXACT - 1) * hash, EXACT * r, (EXACT - 1) * maxJitter, EXACT * m);
      ThreeErrors(r, m, Round(r * m), hash, maxJitter);
    }
  }

  lemma ProductOfBounds(a: nat, b: nat, c: nat, d: nat)
    requires a <= b && c <= d
    ensures a * c <= b * d
  {
    TimesMonotone(a, b, c);
    TimesMonotone(c, d, b);
  }

  lemma ThreeErrors(r: nat, m: nat, x: nat, hash: nat, maxJitter: nat)
    requires (EXACT * r) * (EXACT * m) <= ((EXACT + 1) * hash) * ((EXACT + 1) * maxJitter)
    requires ((EXACT - 1) * hash) * ((EXACT - 1) * maxJitter) <= (EXACT * r) * (EXACT * m)
    requires EXACT * x <= (EXACT + 1) * (r * m) && EXACT * x >= (EXACT - 1) * (r * m)
    ensures EXACT * x <= (EXACT + 4) * (hash * maxJitter) && EXACT * x >= (EXACT - 3) * (hash * maxJitter)
  {
    Regroup(EXACT, r, m);
    Regroup(EXACT + 1, hash, maxJitter);
    Regroup(EXACT - 1, hash, maxJitter);
  }

  lemma Regroup(c: nat, a: nat, b: nat)
    ensures (c * a) * (c * b) == (c * c) * (a * b)
  {
    calc {
      (c * a) * (c * b);
      c * (a * (c * b));
      { assert a * (c * b) == c * (a * b); }
      c * (c * (a * b));
      (c * c) * (a * b);
    }
  }

  /** A greater hash never gives a smaller offset. */
  lemma JitterMonotone(a: nat, b: nat, maxJitter: int)
    requires a <= b <= MAX_UINT64
    ensures JitterFor(a, maxJitter) <= JitterFor(b, maxJitter)
  {
    if maxJitter > 0 {
      RoundMonotone(a, b);
      TimesMonotone(Round(a), Round(b), Round(maxJitter));
      RoundMonotone(Round(a) * Round(maxJitter), Round(b) * Round(maxJitter));
    }
  }

  /** At a power of two the fraction is exact: half of the hashes are offset by up to half of the maximum, and so on. */
  lemma JitterHalves(k: nat, maxJitter: nat)
    requires 1 <= k <= 64 && 1 <= maxJitter <= EXACT
    ensures Pow2(64 - k) <= MAX_UINT64 && JitterFor(Pow2(64 - k), maxJitter) == maxJitter / Pow2(k)
  {
    var p, q := Pow2(64 - k), Pow2(k);
    TopPower();
    PowersMultiply(64 - k, k);
    Pow2Grows(64 - k, 63);
    ExactProduct(64 - k, maxJitter);
    CancelFactor(maxJitter, p, q);
  }

  lemma TopPower()
    ensures Pow2(64) == TWO_TO_64 && Pow2(63) < TWO_TO_64
  {
    assert Pow2(8) == 256;
    assert Pow2(16) == 65536;
    assert Pow2(24) == 0x100_0000;
    assert Pow2(32) == 0x1_0000_0000;
    assert Pow2(40) == 0x100_0000_0000;
    assert Pow2(48) == 0x1_0000_0000_0000;
    assert Pow2(56) == 0x100_0000_0000_0000;
    assert Pow2(64) == 2 * Pow2(63);
  }

  lemma ExactProduct(k: nat, m: nat)
    requires m <= EXACT
    ensures Round(Round(Pow2(k)) * Round(m)) == Pow2(k) * m
  {
    SmallIsExact(1);
    Scales(1, k);
    SmallIsExact(m);
    Scales(m, k);
    assert 1 * Pow2(k) == Pow2(k) && m * Pow2(k) == Pow2(k) * m;
  }

  lemma {:induction false} PowersMultiply(m: nat, n: nat)
    ensures Pow2(m) * Pow2(n) == Pow2(m + n)
  {
    if m > 0 {
      PowersMultiply(m - 1, n);
      assert 2 * Pow2(m - 1) * Pow2(n) == 2 * (Pow2(m - 1) * Pow2(n));
    }
  }

  lemma CancelFactor(n: nat, p: nat, q: nat)
    requires p >= 1 && q >= 1
    ensures (p * n) / (p * q) == n / q
  {
    var rest := n % q;
    assert p * n == (n / q) * (p * q) + p * rest by {
      assert n == q * (n / q) + rest;
      assert p * (q * (n / q) + rest) == p * (q * (n / q)) + p * rest;
      assert p * (q * (n / q)) == (n / q) * (p * q);
    }
    assert p * rest < p * q by { TimesMonotone(rest + 1, q, p); }
    QuotientIs(p * n, p * q, n / q, p * rest);
  }

  lemma ScaledUp(n: nat)
    ensures Round(n * TWO_TO_64) == Round(n) * TWO_TO_64
  {
    TopPower();
    Scales(n, 64);
  }

  lemma Positive(n: nat)
    requires n >= 1
    ensures Round(n) >= 1
  {
    if n < EXACT { SmallIsExact(n); } else { BitsPositive(n, false, false); }
  }

  lemma {:induction false} BitsPositive(n: nat, half: bool, sticky: bool)
    requires n >= 1
    ensures RoundBits(n, half, sticky) >= 1
  {
    if n >= EXACT { BitsPositive(n / 2, n % 2 == 1, half || sticky); }
  }

  /**
   * The source's comment promises a half-open range. For every maximum it holds exactly for the hashes below
   * 2^64 - 1024, unless converting the maximum to float64 rounds it down, when it holds for all.
   */
  lemma HalfOpenExactlyWhen(hash: nat, maxJitter: nat)
    requires hash <= MAX_UINT64 && maxJitter >= 1
    ensures JitterFor(hash, maxJitter) < maxJitter <==> Round(maxJitter) < maxJitter || hash < TWO_TO_64 - 1024
    ensures maxJitter <= EXACT ==> Round(maxJitter) == maxJitter
  {
    JitterAgainstFloat(hash, maxJitter);
    if maxJitter <= EXACT { SmallIsExact(maxJitter); }
    if hash < TWO_TO_64 - 1024 {
      NothingBetween(Round(hash) * Round(maxJitter), maxJitter);
    }
  }

  /** No float64 lies between a number and what it is rounded up to. */
  lemma NothingBetween(x: nat, m: nat)
    requires Round(x) / TWO_TO_64 < Round(m)
    ensures Round(x) / TWO_TO_64 < m
  {
    if Round(x) / TWO_TO_64 >= m {
      ScaledUp(m);
      RoundMonotone(m * TWO_TO_64, Round(x));
      Idempotent(x);
    }
  }

  /** The closed range holds for every hash exactly when the maximum is not rounded up, so for every one up to 2^53. */
  lemma ClosedExactlyWhen(maxJitter: nat)
    requires maxJitter >= 1
    ensures (forall hash: nat :: hash <= MAX_UINT64 ==> JitterFor(hash, maxJitter) <= maxJitter)
      <==> Round(maxJitter) <= maxJitter
    ensures maxJitter <= EXACT ==> Round(maxJitter) == maxJitter
  {
    forall hash: nat | hash <= MAX_UINT64 ensures JitterFor(hash, maxJitter) <= Round(maxJitter) {
      JitterAgainstFloat(hash, maxJitter);
    }
    JitterAgainstFloat(MAX_UINT64, maxJitter);
    if maxJitter <= EXACT { SmallIsExact(maxJitter); }
  }

  /**
   * A certificate with a known expiry is due at every instant after notAfter - renewBefore and at none up to
   * notAfter - renewBefore less the greatest offset, which is the maximum itself up to 2^53 ns, for every hash.
   */
  lemma DueWindow(row: Row, now: int, renewBefore: int, hash: nat, maxJitter: nat)
    requires row.notAfter.Some? && hash <= MAX_UINT64
    ensures var window := renewBefore + JitterFor(hash, maxJitter); var expiry := row.notAfter.value;
      && (now > expiry - renewBefore ==> IsDue(Some(row), now, window))
      && (now <= expiry - renewBefore - Round(maxJitter) ==> !IsDue(Some(row), now, window))
    ensures maxJitter <= EXACT ==> Round(maxJitter) == maxJitter
  {
    if maxJitter >= 1 { JitterAgainstFloat(hash, maxJitter); }
    if maxJitter <= EXACT { SmallIsExact(maxJitter); }
  }

  /**
   * The instant from which on a given hash is due, `early` nanoseconds before notAfter - renewBefore: hash / 2^64 of
   * the maximum, to within four parts in 2^53 and two nanoseconds.
   */
  lemma DueFromItsFraction(row: Row, now: int, renewBefore: int, hash: nat, maxJitter: nat)
    requires row.notAfter.Some? && hash <= MAX_UINT64 && now <= row.notAfter.value - renewBefore
    ensures var window := renewBefore + JitterFor(hash, maxJitter);
      var early := row.notAfter.value - renewBefore - now;
      && (EXACT * (TWO_TO_64 * (early + 2)) <= (EXACT - 3) * (hash * maxJitter) ==> IsDue(Some(row), now, window))
      && (EXACT * (TWO_TO_64 * early) > (EXACT + 4) * (hash * maxJitter) ==> !IsDue(Some(row), now, window))
  {
    JitterIsFraction(hash, maxJitter);
  }

  function ApplyAll(row: Option<Row>, events: seq<Event>): Option<Row>
    decreases |events|
  {
    if events == [] then row else ApplyAll(Apply(row, events[0]), events[1..])
  }

  /** Once due, a certificate stays due through every event but a successful checkin. */
  lemma {:induction false} StaysDue(row: Option<Row>, events: seq<Event>, now: int, later: int, renewBefore: int)
    requires IsDue(row, now, renewBefore) && now <= later
    requires forall i :: 0 <= i < |events| ==> !events[i].Activated?
    ensures IsDue(ApplyAll(row, events), later, renewBefore)
    decreases |events|
  {
    if events != [] {
      assert !events[0].Activated?;
      StaysDue(Apply(row, events[0]), events[1..], now, later, renewBefore);
    }
  }
}
