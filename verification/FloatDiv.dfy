/** Single-precision division with a reciprocal from the hardware divider (mufp_fdiv). */
module FloatDiv {
  import opened Bits
  import opened Rounding
  import opened Single

  // ---- the quotient estimate -------------------------------------------------------------------

  predicate Significand(n: nat) { 0x80_0000 <= n < 0x100_0000 }

  /** The divider's floor(0xffffffff / (d >> 7)), a Q16 reciprocal. */
  function Reciprocal(d: nat): nat
    requires Significand(d)
  {
    0xffff_ffff / (d / 128)
  }

  lemma ReciprocalBounds(d: nat)
    requires Significand(d)
    ensures var u := Reciprocal(d);
      && 0x8000 <= u <= 0xffff
      && 0x80_0000_0000 - d <= u * d <= 0x80_0000_0000 + 0x80_0000
  {
    var k, u := d / 128, Reciprocal(d);
    var lost := d % 128;
    assert 0xffff_ffff == k * u + 0xffff_ffff % k;
    if u >= 0x1_0000 { MulMono(k, 0x1_0000, u); }
    if u < 0x8000 { MulMono(k, u, 0x7fff); }
    var ku := k * u;
    assert 0x1_0000_0000 - k <= ku <= 0xffff_ffff;
    assert d == 128 * k + lost;
    Distrib(128 * k, lost, u);
    MulAssoc(128, k, u);
    MulMono(lost, 0, u);
    MulMono(u, lost, 127);
    assert u * d == 128 * ku + lost * u;
    assert 0 <= lost * u <= 127 * 0xffff;
  }

  /** The first quotient estimate, Q15. */
  function FirstQuotient(n: nat, d: nat): nat
    requires Significand(d)
  {
    (n / 256 * Reciprocal(d)) / 0x1_0000
  }

  /** Its exact remainder, Q38. */
  function FirstRemainder(n: nat, d: nat): int
    requires Significand(d)
  {
    n * 0x8000 - FirstQuotient(n, d) * d
  }

  lemma FirstRemainderBounds(n: nat, d: nat)
    requires Significand(n) && Significand(d)
    ensures FirstQuotient(n, d) <= 0xffff
    ensures -0x80_0000 < FirstRemainder(n, d) < 3 * d
  {
    ReciprocalBounds(d);
    var k, u, a, q := d / 128, Reciprocal(d), n / 256, FirstQuotient(n, d);
    var au := a * u;
    MulMono(a, 0, u);
    MulMono(u, a, 0xffff);
    var uk := u * k;
    assert 0xffff_ffff == k * u + 0xffff_ffff % k;
    assert 0x1_0000_0000 - k <= uk <= 0xffff_ffff;
    assert 0x1_0000 * q <= au < 0x1_0000 * q + 0x1_0000;
    hide Reciprocal, FirstQuotient;
    ScaledBounds(a, u, k, d);
    FloorProduct(au, q, d);
    assert 256 * a <= n < 256 * a + 256;
    MulMono(k, a, 0xffff);
  }

  /** How far a * u * d is from 2^39 * a when u is the rounded reciprocal of d. */
  lemma ScaledBounds(a: nat, u: nat, k: nat, d: nat)
    requires k == d / 128 && u <= 0xffff && 0x1_0000_0000 - k <= u * k <= 0xffff_ffff
    ensures 0x80_0000_0000 * a - 128 * (a * k) <= a * u * d <= 0x80_0000_0000 * a + 127 * (0xffff * a)
  {
    var lost, uk, au := d % 128, u * k, a * u;
    assert au * d == 128 * (a * uk) + au * lost by {
      Distrib(128 * k, lost, au);
      MulAssoc(a, u, k);
      MulAssoc(128, k, au);
    }
    MulMono(a, 0, u);
    MulMono(a, u, 0xffff);
    MulMono(au, 0, lost);
    MulMono(au, lost, 127);
    MulMono(a, uk, 0xffff_ffff);
    MulMono(a, 0x1_0000_0000 - k, uk);
    assert a * (0x1_0000_0000 - k) == 0x1_0000_0000 * a - a * k;
  }

  lemma FloorProduct(x: int, q: int, d: nat)
    requires 0x1_0000 * q <= x < 0x1_0000 * q + 0x1_0000 && d > 0
    ensures 0x1_0000 * (q * d) <= x * d < 0x1_0000 * (q * d) + 0x1_0000 * d
  {
    MulMono(d, 0x1_0000 * q, x);
    MulAssoc(0x1_0000, q, d);
    MulStrict(d, x, 0x1_0000 * q + 0x1_0000);
    Distrib(0x1_0000 * q, 0x1_0000, d);
  }

  /** The corrected estimate of n / d, Q28. */
  function Estimate(n: nat, d: nat): int
    requires Significand(d)
  {
    FirstQuotient(n, d) * 0x2000 + (FirstRemainder(n, d) / 0x400 * Reciprocal(d)) / 0x1_0000
  }

  /** The true Q28 quotient exceeds the estimate by more than -1 and less than 3 units. */
  lemma EstimateError(n: nat, d: nat)
    requires Significand(n) && Significand(d)
    ensures 0 - d < n * 0x1000_0000 - Estimate(n, d) * d < 3 * d
    ensures -0x8000_0000 <= FirstRemainder(n, d) / 0x400 * Reciprocal(d) < 0x8000_0000
    ensures 0x7ff_fff0 <= Estimate(n, d) <= 0x2000_0000
  {
    ReciprocalBounds(d);
    FirstRemainderBounds(n, d);
    var u, q, rem := Reciprocal(d), FirstQuotient(n, d), FirstRemainder(n, d);
    var D := u * d;
    var c := rem / 0x400;
    var cu := c * u;
    var q1 := cu / 0x1_0000;
    var qu := Estimate(n, d);
    var q1d := q1 * d;
    assert qu * d == 0x2000 * (q * d) + q1d by {
      Distrib(q * 0x2000, q1, d);
      MulAssoc(0x2000, q, d);
    }
    var err := n * 0x1000_0000 - qu * d;
    assert err == 0x2000 * rem - q1d;
    var cD := c * D;
    var remD := rem * D;
    assert cu * d == cD by { MulAssoc(c, u, d); }
    FloorProduct(cu, q1, d);
    assert 0x400 * cD <= remD < 0x400 * cD + 0x400 * D by {
      MulMono(D, 0x400 * c, rem);
      MulAssoc(0x400, c, D);
      MulMono(D, 0, 1);
      MulStrict(D, rem, 0x400 * c + 0x400);
      Distrib(0x400 * c, 0x400, D);
    }
    CorrectionSlack(rem, d, D);
    assert D <= 0xffff * d by { MulMono(d, u, 0xffff); }
    CorrectionFits(rem, u, d);
    if qu < 0x7ff_fff0 { MulMono(d, qu, 0x7ff_ffef); assert false; }
    if qu > 0x2000_0000 { MulMono(d, 0x2000_0001, qu); assert false; }
  }

  /** The part of the error due to the reciprocal being inexact. */
  lemma CorrectionSlack(rem: int, d: nat, D: nat)
    requires Significand(d)
    requires -0x80_0000 < rem < 3 * d && 0x80_0000_0000 - d <= D <= 0x80_0000_0000 + 0x80_0000
    ensures -0x200_0000 * d < 0x80_0000_0000 * rem - rem * D < 0x300_0000 * d
  {
    var slack := 0x80_0000_0000 - D;
    assert 0x80_0000_0000 * rem - rem * D == rem * slack;
    if rem >= 0 {
      MulMono(rem, slack, d);
      MulMono(rem, -0x80_0000, slack);
      MulMono(d, rem, 0x300_0000);
    } else {
      MulMono(-rem, slack, d);
      MulMono(-rem, -0x80_0000, slack);
      MulMono(d, -rem, 0x80_0000);
    }
  }

  lemma CorrectionFits(rem: int, u: nat, d: nat)
    requires Significand(d) && 0x8000 <= u <= 0xffff
    requires -0x80_0000 < rem < 3 * d && u * d <= 0x80_0000_0000 + 0x80_0000
    ensures -0x8000_0000 <= rem / 0x400 * u < 0x8000_0000
  {
    var c := rem / 0x400;
    if c >= 0 {
      MulMono(u, 0x400 * c, 3 * d);
      MulAssoc(0x400, c, u);
      MulAssoc(3, d, u);
      MulMono(u, 0, c);
    } else {
      MulMono(u, -0x2000, c);
      MulMono(u, c, 0);
    }
  }

  // ---- rounding the estimate -------------------------------------------------------------------

  /** A multiple of 2^j with an odd cofactor: the other factor is a multiple of 2^j. */
  lemma {:induction false} OddFactor(k: nat, d: nat, n: nat, j: nat) returns (t: nat)
    requires (2 * k + 1) * d == n * Pow2(j)
    ensures d == t * Pow2(j)
  {
    if j == 0 {
      t := d;
    } else {
      var h := d / 2;
      MulAssoc(n, 2, Pow2(j - 1));
      MulAssoc(2, k, d);
      Distrib(2 * k, 1, d);
      assert n * (2 * Pow2(j - 1)) == 2 * (n * Pow2(j - 1));
      assert d == 2 * h;
      MulAssoc(2 * k + 1, 2, h);
      assert (2 * k + 1) * d == 2 * ((2 * k + 1) * h);
      t := OddFactor(k, h, n, j - 1);
      assert t * (2 * Pow2(j - 1)) == 2 * (t * Pow2(j - 1));
    }
  }

  /** No quotient of two significands lies exactly halfway between two representable ones. */
  lemma NoTie(n: nat, d: nat, k: nat, j: nat)
    requires Significand(d) && j >= 24
    ensures n * Pow2(j) != (2 * k + 1) * d
  {
    if n * Pow2(j) == (2 * k + 1) * d {
      var t := OddFactor(k, d, n, j);
      PowValues();
      Pow2Mono(24, j);
      if t > 0 { MulMono(Pow2(j), 1, t); }
      assert false;
    }
  }

  ghost predicate NeverTie(N: nat, d: nat) {
    forall k: nat :: N != (2 * k + 1) * d
  }

  lemma Products(k: nat, d: nat)
    ensures (2 * k - 1) * d == 2 * (k * d) - d
    ensures (2 * k + 1) * d == 2 * (k * d) + d
    ensures (2 * (k + 1) - 1) * d == 2 * (k * d) + d
    ensures (2 * (k + 1) + 1) * d == 2 * (k * d) + 3 * d
  {
    MulAssoc(2, k, d);
    Distrib(2 * k, 1, d);
    Distrib(2 * k, 3, d);
    assert 2 * (k + 1) - 1 == 2 * k + 1 && 2 * (k + 1) + 1 == 2 * k + 3;
  }

  /** Quotients below one keep bits above the low four: with the bias of 5 added, a clear bit 3 means the
      true quotient is not near a rounding boundary, and otherwise the sign of the remainder decides. */
  lemma RoundEstimateBelowOne(n: nat, d: nat, biased: nat, N: nat)
    requires Significand(n) && Significand(d)
    requires biased == Estimate(n, d) + 5 && N == n * 0x200_0000
    ensures biased <= 0x2000_0000 + 5
    ensures var k, b := biased / 16, biased % 16;
      var rem := N - (2 * k + 1) * d;
      && -0x1000_0000 < rem < 0x1000_0000
      && (b < 8 ==> RoundsTwice(N, d, k))
      && (b >= 8 ==> RoundsTwice(N, d, if rem >= 0 then k + 1 else k))
  {
    EstimateError(n, d);
    NeverTies(n, d, N, 25);
    var qu := Estimate(n, d);
    var k, b := biased / 16, biased % 16;
    var kd, bd := k * d, b * d;
    Products(k, d);
    assert qu * d == 16 * kd + bd - 5 * d by {
      Distrib(16 * k, b - 5, d);
      Distrib(b, 5, d);
      MulAssoc(16, k, d);
    }
    if b < 8 { MulMono(d, b, 7); MulMono(d, 0, b); } else { MulMono(d, 8, b); MulMono(d, b, 15); }
    assert N != (2 * k + 1) * d;
  }

  /** The same one place further up, with a bias of 9, for quotients of at least one. */
  lemma RoundEstimateAboveOne(n: nat, d: nat, biased: nat, N: nat)
    requires Significand(n) && Significand(d)
    requires biased == Estimate(n, d) + 9 && N == n * 0x100_0000
    ensures biased <= 0x2000_0000 + 9
    ensures var k, b := biased / 32, biased % 32;
      var rem := N - (2 * k + 1) * d;
      && -0x1000_0000 < rem < 0x1000_0000
      && (b < 16 ==> RoundsTwice(N, d, k))
      && (b >= 16 ==> RoundsTwice(N, d, if rem >= 0 then k + 1 else k))
  {
    EstimateError(n, d);
    NeverTies(n, d, N, 24);
    var qu := Estimate(n, d);
    var k, b := biased / 32, biased % 32;
    var kd, bd := k * d, b * d;
    Products(k, d);
    assert qu * d == 32 * kd + bd - 9 * d by {
      Distrib(32 * k, b - 9, d);
      Distrib(b, 9, d);
      MulAssoc(32, k, d);
    }
    if b < 16 { MulMono(d, b, 15); MulMono(d, 0, b); } else { MulMono(d, 16, b); MulMono(d, b, 31); }
    assert N != (2 * k + 1) * d;
  }

  /** N / 2 / d rounds to m, and is not a tie. */
  ghost predicate RoundsTwice(N: nat, d: nat, m: nat) {
    (2 * m - 1) * d < N < (2 * m + 1) * d
  }

  // ---- from the significand quotient to the packed result ---------------------------------------

  /** What is delivered for exponent r3 and significand r4 in the closed range [2^23, 2^24]. */
  function PackedMagnitude(r3: int, r4: nat): nat {
    if r3 >= 254 then E * M
    else if r3 >= 0 then r3 * M + r4
    else if r3 == -1 && r4 >= 0x100_0000 then M
    else 0
  }

  /** The exact quotient is halfway between the largest denormal and the smallest normal: an all-ones
      significand over a power of two, 127 binades down. */
  predicate HalfwayBelowSmallest(x: Word, y: Word) {
    Fraction(x) == 0x7f_ffff && Fraction(y) == 0 && Exponent(x) + 127 == Exponent(y)
  }

  /** The exact quotient of two normal numbers in units of 2^-149, as numerator and denominator. */
  ghost function Numerator(x: Word): nat { Value(x) * Pow2(149) }

  /** Value(x) * 2^149 / Value(y) is A / d * 2^(e-1) for the significand ratio A / d scaled up by 2^s. */
  lemma QuotientExponent(x: Word, y: Word, s: nat)
    requires Normal(x) && Normal(y) && s <= 24
    ensures Numerator(x) * (M + Fraction(y)) * Pow2(Exponent(y) - 1)
         == ((M + Fraction(x)) * Pow2(s)) * Value(y) * Pow2(Exponent(x) - 1 + 149 - s)
    ensures Value(y) > 0
  {
    var n, d, a, b := M + Fraction(x), M + Fraction(y), Exponent(x) - 1, Exponent(y) - 1;
    ValueFields(x);
    ValueFields(y);
    MulMono(d, 1, Pow2(b));
    Pow2Add(a, 149);
    Pow2Add(s, a + 149 - s);
    var t := Pow2(a + 149 - s);
    calc {
      Numerator(x) * d * Pow2(b);
      { MulAssoc(n, Pow2(a), Pow2(149)); }
      n * (Pow2(s) * t) * d * Pow2(b);
      { FourFactors(n, Pow2(s), t, d, Pow2(b)); }
      (n * Pow2(s)) * (d * Pow2(b)) * t;
    }
  }

  lemma FourFactors(n: nat, s: nat, t: nat, d: nat, b: nat)
    ensures n * (s * t) * d * b == (n * s) * (d * b) * t
  {
    MulAssoc(n, s, t);
    MulAssoc(n * s, t, d * b);
    MulAssoc(n * (s * t), d, b);
  }

  lemma QuotientBelowOne(x: Word, y: Word, r3: int, r4: nat)
    requires Normal(x) && Normal(y)
    requires M + Fraction(x) < M + Fraction(y)
    requires r3 == Exponent(x) - Exponent(y) + 125
    requires RoundsTwice((M + Fraction(x)) * 0x200_0000, M + Fraction(y), r4)
    ensures M <= r4 <= 0x100_0000
    ensures FlushedNearest(M, E, Numerator(x), Value(y), PackedMagnitude(r3, r4))
  {
    var n, d := M + Fraction(x), M + Fraction(y);
    var A := n * 0x100_0000;
    PowValues();
    QuotientExponent(x, y, 24);
    SignificandRange(A, d, r4);
    assert A < 0xff_ffff * d && r4 < 0x100_0000 by {
      if r4 == 0x100_0000 { assert false; }
    }
    Deliver(M, E, Numerator(x), Value(y), A, d, r4, Exponent(y) - 1, Exponent(x) - 1 + 125);
  }

  lemma SignificandRange(A: nat, d: nat, m: nat)
    requires d > 0 && M * d <= A < 2 * M * d && RoundsTwice(2 * A, d, m)
    ensures M <= m <= 2 * M && RoundsTo(A, d, m)
  {
    if m < M { MulMono(d, 2 * m + 1, 2 * M - 1); }
    if m > 2 * M { MulMono(d, 4 * M + 1, 2 * m - 1); }
  }

  lemma QuotientAtLeastOne(x: Word, y: Word, r3: int, r4: nat)
    requires Normal(x) && Normal(y)
    requires M + Fraction(x) >= M + Fraction(y)
    requires r3 == Exponent(x) - Exponent(y) + 126
    requires RoundsTwice((M + Fraction(x)) * 0x100_0000, M + Fraction(y), r4)
    ensures M <= r4 < 0x100_0000
    ensures FlushedNearest(M, E, Numerator(x), Value(y),
              if HalfwayBelowSmallest(x, y) then M else PackedMagnitude(r3, r4))
    ensures HalfwayBelowSmallest(x, y) ==> PackedMagnitude(r3, r4) == 0
  {
    var n, d := M + Fraction(x), M + Fraction(y);
    var A := n * M;
    PowValues();
    QuotientExponent(x, y, 23);
    assert A < 2 * M * d by { MulStrict(M, n, 2 * M); MulMono(2 * M, M, d); }
    SignificandRange(A, d, r4);
    // only the largest significand over the smallest reaches 2^24 - 1
    if A >= 0xff_ffff * d && !(n == 0xff_ffff && d == M) {
      if d > M { MulMono(0xff_ffff, M + 1, d); assert false; }
      assert false;
    }
    if r4 == 0x100_0000 { assert false; }
    Deliver(M, E, Numerator(x), Value(y), A, d, r4, Exponent(y) - 1, Exponent(x) - 1 + 126);
  }

  lemma OneRoundsToOne(d: nat, m: nat)
    requires d > 0 && RoundsTwice(d * 0x200_0000, d, m)
    ensures m == 0x100_0000
  {
    if m < 0x100_0000 { MulMono(d, 2 * m + 1, 0x1ff_ffff); }
    if m > 0x100_0000 { MulMono(d, 0x200_0001, 2 * m - 1); }
  }

  /** A quotient of exactly one whose estimate fell short: the significand carries into the exponent. */
  lemma QuotientOne(x: Word, y: Word, r3: int, r4: nat)
    requires Normal(x) && Normal(y)
    requires Fraction(x) == Fraction(y)
    requires r3 == Exponent(x) - Exponent(y) + 125
    requires RoundsTwice((M + Fraction(x)) * 0x200_0000, M + Fraction(y), r4)
    ensures r4 == 0x100_0000
    ensures FlushedNearest(M, E, Numerator(x), Value(y), PackedMagnitude(r3, r4))
  {
    var d := M + Fraction(y);
    PowValues();
    QuotientExponent(x, y, 23);
    OneRoundsToOne(d, r4);
    RoundedOne(d, r3);
    hide Pow2, FlushedNearest, Delivered, RoundsTo, Value, Numerator, PackedMagnitude;
    Deliver(M, E, Numerator(x), Value(y), d * M, d, M, Exponent(y) - 1, Exponent(x) - 1 + 126);
  }

  /** A quotient of one has the significand 2^23, whichever way it is packed. */
  lemma RoundedOne(d: nat, r3: int)
    requires d > 0
    ensures RoundsTo(d * M, d, M) && M * d <= d * M < 2 * M * d
    ensures Delivered(M, E, d * M, d, M, r3 + 2) == PackedMagnitude(r3, 0x100_0000)
  {
    MulStrict(d, M, 2 * M);
    assert (2 * M - 1) * d == 2 * (d * M) - d && (2 * M + 1) * d == 2 * (d * M) + d;
  }

  /** At the excepted inputs IEEE rounding yields the smallest normal number and the routine zero. */
  lemma HalfwayRoundsToNormal(x: Word, y: Word, r: nat)
    requires Normal(x) && Normal(y) && HalfwayBelowSmallest(x, y)
    requires FlushedNearest(M, E, Numerator(x), Value(y), r)
    ensures r == M
  {
    var A := 0xff_ffff * M;
    PowValues();
    QuotientExponent(x, y, 23);
    Deliver(M, E, Numerator(x), Value(y), A, M, 0xff_ffff, Exponent(y) - 1, Exponent(x) - 1 + 126);
    FlushedNearestUnique(M, E, Numerator(x), Value(y), r, M);
  }

  // ---- the routine -------------------------------------------------------------------------------

  /** The first quotient and, modulo 2^32, the dividend in Q38. */
  method FirstEstimate(dividend: Word, divisor: Word, reciprocal: Word) returns (r0: Word, r1: Word)
    requires Significand(dividend) && Significand(divisor) && reciprocal == Reciprocal(divisor)
    ensures r0 == Wrap(dividend * 0x8000)
    ensures r1 == FirstQuotient(dividend, divisor)
  {
    r1 := Lsr(dividend, 0x100);
    FirstProductFits(dividend, divisor);
    r1 := Mul(r1, reciprocal);
    r1 := Lsr(r1, 0x1_0000);
    r0 := Lsl(dividend, 0x8000);
  }

  /** The signed remainder of the first quotient corrects it to the Q28 estimate. */
  method CorrectQuotient(dividend: Word, divisor: Word, reciprocal: Word, r0: Word, q: Word) returns (r1: Word)
    requires Significand(dividend) && Significand(divisor) && reciprocal == Reciprocal(divisor)
    requires r0 == Wrap(dividend * 0x8000) && q == FirstQuotient(dividend, divisor)
    ensures r1 == Estimate(dividend, divisor)
  {
    ghost var rem := FirstRemainder(dividend, divisor);
    ghost var c := rem / 0x400;
    ghost var t := c * reciprocal / 0x1_0000;
    assert 0 <= q * 0x2000 + t < 0x1_0000_0000 by { EstimateError(dividend, divisor); }
    r1 := q;
    var r4 := divisor;
    r4 := Mul(r4, r1);
    r4 := Sub(r0, r4);
    assert r4 == Wrap(rem) by { WrapSub(dividend * 0x8000, divisor * q); }
    r4 := Asr(r4, 0x400);
    assert r4 == Wrap(c) by { FirstRemainderBounds(dividend, divisor); SignedWrap(rem); }
    r4 := Mul(r4, reciprocal);
    assert r4 == Wrap(c * reciprocal) by { WrapMul(c, reciprocal); }
    r4 := Asr(r4, 0x1_0000);
    assert r4 == Wrap(t) by { EstimateError(dividend, divisor); SignedWrap(c * reciprocal); }
    r1 := Lsl(r1, 0x2000);
    r1 := Add(r1, r4);
    SumRegister(q * 0x2000, t);
  }

  lemma SumRegister(x: int, y: int)
    requires 0 <= x + y < 0x1_0000_0000
    ensures Wrap(Wrap(x) + Wrap(y)) == x + y
  {
    WrapSub(x, y);
  }

  lemma FirstProductFits(n: nat, d: nat)
    requires Significand(n) && Significand(d)
    ensures 0 <= n / 0x100 * Reciprocal(d) < 0x1_0000_0000
  {
    ReciprocalBounds(d);
    MulMono(Reciprocal(d), n / 0x100, 0xffff);
    MulMono(Reciprocal(d), 0, n / 0x100);
  }

  lemma NeverTies(n: nat, d: nat, N: nat, j: nat)
    requires Significand(d) && ((j == 24 && N == n * 0x100_0000) || (j == 25 && N == n * 0x200_0000))
    ensures NeverTie(N, d)
  {
    PowValues();
    Pow2Add(24, 1);
    assert Pow2(1) == 2 * Pow2(0);
    forall k: nat ensures N != (2 * k + 1) * d { NoTie(n, d, k, j); }
  }

  /** Bit 3 of the biased estimate is the carry of the shift by four places. */
  lemma BoundaryBit3(x: Word)
    ensures CarryLsr(x, 0x10) <==> x % 16 >= 8
    ensures CarryLsr(x, 0x10) ==> x / 8 == 2 * (x / 16) + 1
  {
  }

  /** Bit 4 is the carry of the shift by five. */
  lemma BoundaryBit4(x: Word)
    ensures CarryLsr(x, 0x20) <==> x % 32 >= 16
    ensures CarryLsr(x, 0x20) ==> x / 16 == 2 * (x / 32) + 1
  {
  }

  /** The sign of the exact remainder at a rounding boundary h. */
  method BoundaryRemainder(dividend: Word, divisor: Word, r0: Word, h: Word, scale: nat, ghost N: nat)
    returns (negative: bool)
    requires r0 == Wrap(dividend * 0x8000) && N == dividend * 0x8000 * scale
    requires -0x8000_0000 <= N - h * divisor < 0x8000_0000
    ensures negative <==> N < h * divisor
  {
    ghost var boundary := h * divisor;
    var rem := Lsl(r0, scale);
    assert rem == Wrap(N) by { WrapMul(dividend * 0x8000, scale); }
    var r1 := Mul(h, divisor);
    assert r1 == Wrap(boundary);
    rem := Sub(rem, r1);
    assert Signed(rem) == N - boundary by { DifferenceRegister(N, boundary); }
    negative := Signed(rem) < 0;
  }

  lemma DifferenceRegister(x: int, y: int)
    requires -0x8000_0000 <= x - y < 0x8000_0000
    ensures Signed(Sub(Wrap(x), Wrap(y))) == x - y
  {
    hide Wrap;
    WrapSub(x, y);
    SignedWrap(x - y);
  }

  /** Rounding of quotients below one. */
  method RoundBelowOne(dividend: Word, divisor: Word, dividend38: Word, quotient: Word) returns (r4: Word)
    requires Significand(dividend) && Significand(divisor)
    requires dividend38 == Wrap(dividend * 0x8000)
    requires quotient == Estimate(dividend, divisor)
    ensures RoundsTwice(dividend * 0x200_0000, divisor, r4)
  {
    ghost var N := dividend * 0x200_0000;
    var r0, r1 := dividend38, quotient;
    ghost var biased := quotient + 5;
    ghost var k := biased / 16;
    RoundEstimateBelowOne(dividend, divisor, biased, N);
    r1 := Add(r1, 5);
    WrapSmall(biased);
    BoundaryBit3(biased);
    r4 := Lsr(r1, 0x10);
    var nearBoundary := CarryLsr(r1, 0x10);
    assert nearBoundary <==> biased % 16 >= 8;
    if nearBoundary {
      r1 := Lsr(r1, 0x8);
      assert r1 == 2 * k + 1;
      var negative := BoundaryRemainder(dividend, divisor, r0, r1, 0x400, N);
      if !negative { r4 := r4 + 1; }
    }
  }

  /** Rounding of quotients of at least one. */
  method RoundAtLeastOne(dividend: Word, divisor: Word, dividend38: Word, quotient: Word) returns (r4: Word)
    requires Significand(dividend) && Significand(divisor)
    requires dividend38 == Wrap(dividend * 0x8000)
    requires quotient == Estimate(dividend, divisor)
    ensures RoundsTwice(dividend * 0x100_0000, divisor, r4)
  {
    ghost var N := dividend * 0x100_0000;
    var r0, r1 := dividend38, quotient;
    ghost var biased := quotient + 9;
    ghost var k := biased / 32;
    RoundEstimateAboveOne(dividend, divisor, biased, N);
    r1 := Add(r1, 9);
    WrapSmall(biased);
    BoundaryBit4(biased);
    r4 := Lsr(r1, 0x20);
    var nearBoundary := CarryLsr(r1, 0x20);
    assert nearBoundary <==> biased % 32 >= 16;
    if nearBoundary {
      r1 := Lsr(r1, 0x10);
      assert r1 == 2 * k + 1;
      var negative := BoundaryRemainder(dividend, divisor, r0, r1, 0x200, N);
      if !negative { r4 := r4 + 1; }
    }
  }

  /** Range check and packing; the sign is already in bit 31. */
  method PackQuotient(r3: Word, r4: Word, r6: Word) returns (r: Word)
    requires M <= r4 <= 0x100_0000 && (r6 == 0 || r6 == 0x8000_0000)
    requires -0x1000 < Signed(r3) < 0x1000
    ensures Sign(r) == Sign(r6) && Magnitude(r) == PackedMagnitude(Signed(r3), r4)
  {
    if r3 >= 254 {
      if Signed(r3) >= 254 { return r6 + 0x7f80_0000; }
      var r1 := Add(r3, 1);
      if r1 != 0 { return r6; }
      if !CarryLsr(r4, 0x200_0000) { return r6; }
      return r6 + 0x80_0000;
    }
    var r1 := Lsl(r3, 0x80_0000);
    var r0 := Add(r4, r1);
    r := Add(r0, r6);
  }

  /** The significand with the implied one. */
  method UnpackSignificand(x: Word) returns (r: Word)
    ensures r == M + Fraction(x)
  {
    r := Lsl(x, 0x200);
    r := Lsr(r, 0x200);
    assert r == Fraction(x) by { LowBits(x); }
    InsertImpliedOne(Fraction(x));
    r := Or(32, r, 0x80_0000);
  }

  lemma LowBits(x: Word)
    ensures Lsl(x, 0x200) / 0x200 == Fraction(x)
  {
    WrapShift(0x200 * Fraction(x), x / 0x80_0000);
  }

  method UnpackSign(x: Word, y: Word) returns (r6: Word)
    ensures r6 == 0 || r6 == 0x8000_0000
    ensures Sign(r6) == (Sign(x) + Sign(y)) % 2
  {
    r6 := Lsr(x, 0x80_0000);
    var r1 := Lsr(y, 0x80_0000);
    SignOfFields(x, y);
    r6 := Xor(32, r6, r1);
    r6 := Lsr(r6, 0x100);
    r6 := Lsl(r6, 0x8000_0000);
  }

  /** The quotient of normal operands: exponent r3, significands r0 and r2, reciprocal r5. */
  method NormalQuotient(x: Word, y: Word, n: Word, d: Word, r5: Word, exponents: Word, r6: Word) returns (r: Word)
    requires Normal(x) && Normal(y) && (r6 == 0 || r6 == 0x8000_0000)
    requires n == M + Fraction(x) && d == M + Fraction(y) && r5 == Reciprocal(d)
    requires Signed(exponents) == Exponent(x) - Exponent(y)
    ensures Sign(r) == Sign(r6)
    ensures FlushedNearest(M, E, Numerator(x), Value(y), Magnitude(r)) <==> !HalfwayBelowSmallest(x, y)
    ensures HalfwayBelowSmallest(x, y) ==> Magnitude(r) == 0
  {
    ghost var e := Exponent(x) - Exponent(y) + 125;
    var r3 := Add(exponents, 125);
    SignedAdd(exponents, 125);
    var r0, r1 := FirstEstimate(n, d, r5);
    r1 := CorrectQuotient(n, d, r5, r0, r1);
    OneComparison(n, d);
    var r4 := Lsr(r1, 0x1000_0000);
    if r4 == 0 {
      r4 := RoundBelowOne(n, d, r0, r1);
      if n < d { QuotientBelowOne(x, y, e, r4); } else { QuotientOne(x, y, e, r4); }
    } else {
      SignedAdd(r3, 1);
      r3 := Add(r3, 1);
      r4 := RoundAtLeastOne(n, d, r0, r1);
      QuotientAtLeastOne(x, y, e + 1, r4);
    }
    r := PackQuotient(r3, r4, r6);
    HalfwayException(x, y, Magnitude(r));
  }

  lemma HalfwayException(x: Word, y: Word, r: nat)
    requires Normal(x) && Normal(y)
    requires if HalfwayBelowSmallest(x, y) then r == 0 else FlushedNearest(M, E, Numerator(x), Value(y), r)
    ensures FlushedNearest(M, E, Numerator(x), Value(y), r) <==> !HalfwayBelowSmallest(x, y)
  {
    if HalfwayBelowSmallest(x, y) && FlushedNearest(M, E, Numerator(x), Value(y), r) {
      HalfwayRoundsToNormal(x, y, r);
    }
  }

  /** x / y. The result of normal operands is the correctly rounded quotient, denormal results flushed to
      zero, exactly when the quotient is not halfway between the largest denormal and the smallest normal. */
  method Fdiv(x: Word, y: Word) returns (r: Word)
    ensures Sign(r) == (Sign(x) + Sign(y)) % 2
    ensures Normal(x) && Normal(y) ==>
      (FlushedNearest(M, E, Numerator(x), Value(y), Magnitude(r)) <==> !HalfwayBelowSmallest(x, y))
    ensures Normal(x) && Normal(y) && HalfwayBelowSmallest(x, y) ==> Magnitude(r) == 0
    ensures Exponent(y) == 0 || (Exponent(x) == 255 && Exponent(y) != 255) ==> Magnitude(r) == E * M
    ensures Exponent(x) == 0 && Exponent(y) != 0 ==> Magnitude(r) == 0
    ensures Exponent(y) == 255 ==> Magnitude(r) == (if Exponent(x) == 255 then E * M else 0)
  {
    var r2 := UnpackSignificand(y);
    var r3 := Lsr(r2, 0x80);
    var r5: Word := 0xffff_ffff / r3;
    r3 := Lsr(x, 0x80_0000) % 256;
    var r0 := UnpackSignificand(x);
    var r6 := UnpackSign(x, y);
    var r1 := Lsr(y, 0x80_0000) % 256;
    if r1 == 0 { return r6 + 0x7f80_0000; }
    if r1 == 255 {
      if r3 != 255 { return r6; }
      return r6 + 0x7f80_0000;
    }
    if r3 == 0 { return r6; }
    if r3 == 255 { return r6 + 0x7f80_0000; }
    SignedWrap(Exponent(x) - Exponent(y));
    r3 := Sub(r3, r1);
    r := NormalQuotient(x, y, r0, r2, r5, r3, r6);
  }

  lemma SignOfFields(x: Word, y: Word)
    ensures Xor(32, x / 0x80_0000, y / 0x80_0000) / 0x100 == (Sign(x) + Sign(y)) % 2
  {
    var a, b := x / 0x80_0000, y / 0x80_0000;
    SignField(x);
    SignField(y);
    assert Pow2(8) == 0x100 by { PowValues(); }
    ShrDivides(a, 8);
    ShrDivides(b, 8);
    ShrDivides(Xor(32, a, b), 8);
    XorHigh(32, a, b, 8);
    XorOfBits(24, Sign(x), Sign(y));
  }

  lemma SignField(x: Word)
    ensures 0 <= x / 0x80_0000 < 0x200 && x / 0x80_0000 / 0x100 == Sign(x)
  {
    DivDiv(x, 0x80_0000, 0x100);
  }

  /** The estimate is below 2^28 when n < d, and when it is below 2^28 n does not exceed d. */
  lemma OneComparison(n: nat, d: nat)
    requires Significand(n) && Significand(d)
    ensures Estimate(n, d) >= 0x1000_0000 ==> n >= d
    ensures Estimate(n, d) < 0x1000_0000 ==> n <= d
  {
    EstimateError(n, d);
    var qu := Estimate(n, d);
    if qu >= 0x1000_0000 && n < d { MulMono(d, 0x1000_0000, qu); assert false; }
    if qu < 0x1000_0000 && n > d { MulMono(d, qu, 0xfff_ffff); assert false; }
  }
}
