/** Single-precision multiplication from two 32-bit multiplies (mufp_fmul). */
module FloatMul {
  import opened Bits
  import opened Rounding
  import opened Single

  // ---- the 46-bit product of the fractions --------------------------------------------------------

  /** The product of the top halves never overestimates and is short by less than 2^31. */
  lemma TruncatedProduct(a: nat, b: nat)
    requires a < M && b < M
    ensures var h := (a / 0x80) * (b / 0x80);
      0 <= h < 0x1_0000_0000 && 0 <= a * b - 0x4000 * h < 0x8000_0000
  {
    var a', b', p, q := a / 0x80, b / 0x80, a % 0x80, b % 0x80;
    var h := a' * b';
    MulMono(b', a', 0xffff);
    MulMono(b', 0, a');
    MulMono(a', q, 127);
    MulMono(a', 0, q);
    MulMono(b', p, 127);
    MulMono(b', 0, p);
    MulMono(q, p, 127);
    MulMono(q, 0, p);
    calc {
      a * b;
      (0x80 * a' + p) * b;
      { Distrib(0x80 * a', p, b); MulAssoc(0x80, a', b); }
      0x80 * (a' * b) + p * b;
      { Distrib(0x80 * b', q, a'); MulAssoc(0x80, b', a'); Distrib(0x80 * b', q, p); MulAssoc(0x80, b', p); }
      0x80 * (0x80 * h + q * a') + (0x80 * (b' * p) + q * p);
    }
  }

  /** One carry repairs the estimate of the product's bits from 32 up. */
  lemma CarryFix(T: nat, h: nat)
    requires 0 <= T - 0x4000 * h < 0x8000_0000
    ensures T / 0x1_0000_0000
         == h / 0x4_0000 + (if (h / 0x2_0000) % 2 == 1 && T % 0x1_0000_0000 < 0x8000_0000 then 1 else 0)
  {
    var H, g := h / 0x4_0000, h % 0x4_0000;
    var rest := T - 0x1_0000_0000 * H;
    assert rest == 0x4000 * g + (T - 0x4000 * h);
    assert (h / 0x2_0000) % 2 == 1 <==> g >= 0x2_0000;
    if rest < 0x1_0000_0000 {
      DivModUnique(T, 0x1_0000_0000, H, rest);
    } else {
      DivModUnique(T, 0x1_0000_0000, H + 1, rest - 0x1_0000_0000);
    }
  }

  /** The significand product less one, floored to Q23 in r0, the rest at the top of r3. */
  method FractionProduct(x: Word, y: Word) returns (r0: Word, r3: Word)
    requires x < 0x80_0000 && y < 0x80_0000
    ensures r0 == x + y + x * y / 0x80_0000
    ensures r3 == (x * y) % 0x80_0000 * 0x200
  {
    hide Wrap;
    ghost var T := x * y;
    ghost var h := (x / 0x80) * (y / 0x80);
    var r12 := Add(x, y);
    AddSmall(x, y);
    var r2 := Lsr(x, 0x80);
    r3 := Lsr(y, 0x80);
    r2 := Mul(r2, r3);
    assert r2 == h && 0 <= T - 0x4000 * h < 0x8000_0000 by { TruncatedProduct(x, y); WrapSmall(h); }
    r0 := Mul(x, y);
    var carry := CarryLsr(r2, 0x4_0000);
    r2 := Lsr(r2, 0x4_0000);
    if carry && !(r0 >= 0x8000_0000) { AddSmall(r2, 1); r2 := Add(r2, 1); }
    assert r0 == T % 0x1_0000_0000 by { WrapIsMod(T); }
    assert r2 == T / 0x1_0000_0000 by { CarryFix(T, h); }
    assert T < 0x4000_0000_0000 by { MulMono(x, y, 0x80_0000); }
    SplitProduct(T);
    r3 := Lsl(r0, 0x200);
    r0 := Lsr(r0, 0x80_0000);
    r2 := Lsl(r2, 0x200);
    r0 := Add(r0, r2);
    AddSmall(r0, r12);
    r0 := Add(r0, r12);
  }

  lemma WrapIsMod(x: int)
    ensures Wrap(x) == x % 0x1_0000_0000
  {
  }

  lemma SplitProduct(T: nat)
    requires T < 0x4000_0000_0000
    ensures var lo, hi := T % 0x1_0000_0000, T / 0x1_0000_0000;
      && hi < 0x4000 && lo / 0x80_0000 + hi * 0x200 == T / 0x80_0000 < 0x80_0000
      && Lsl(lo, 0x200) == T % 0x80_0000 * 0x200
      && Add(lo / 0x80_0000, Lsl(hi, 0x200)) == T / 0x80_0000
  {
    var lo, hi := T % 0x1_0000_0000, T / 0x1_0000_0000;
    DivModUnique(T, 0x80_0000, lo / 0x80_0000 + hi * 0x200, lo % 0x80_0000);
    WrapShift(lo % 0x80_0000 * 0x200, lo / 0x80_0000);
    WrapSmall(hi * 0x200);
    WrapSmall(lo / 0x80_0000 + hi * 0x200);
  }

  // ---- rounding and exponents -------------------------------------------------------------------

  /** The exact product of the magnitudes in units of 2^-298. */
  ghost function ExactProduct(x: Word, y: Word): nat {
    MulMono(Value(y), 0, Value(x));
    Value(x) * Value(y)
  }

  function SignificandsProduct(x: Word, y: Word): nat {
    (M + Fraction(x)) * (M + Fraction(y))
  }

  /** The exact product of two finite numbers over 2^149 is A / 2^s * 2^(e-1) for the product A of the
      significands. */
  lemma ProductExponent(x: Word, y: Word, s: nat, v: nat)
    requires Normal(x) && Normal(y) && 23 <= s <= 24
    requires v == Exponent(x) + Exponent(y) + s - 23
    ensures Shl(Shl(ExactProduct(x, y), s), 128) == Shl(Shl(SignificandsProduct(x, y), 149), v)
  {
    ProductOfValues(x, y);
    hide ExactProduct, SignificandsProduct, Shl;
    SameScale(ExactProduct(x, y), SignificandsProduct(x, y), Exponent(x) - 1 + (Exponent(y) - 1), s, 128, 149, v);
  }

  lemma ProductOfValues(x: Word, y: Word)
    requires Normal(x) && Normal(y)
    ensures ExactProduct(x, y) == Shl(SignificandsProduct(x, y), Exponent(x) - 1 + (Exponent(y) - 1))
  {
    var n, d, a, b := M + Fraction(x), M + Fraction(y), Exponent(x) - 1, Exponent(y) - 1;
    ValueFields(x);
    ValueFields(y);
    hide Pow2, Value;
    PowerProduct(n, a, d, b);
  }

  /** The significand product in terms of what FractionProduct computes. */
  lemma SignificandProduct(a: nat, b: nat)
    requires a < M && b < M
    ensures var R, s := a + b + a * b / M, a * b % M;
      && (M + a) * (M + b) == M * (M + R) + s
      && R < 3 * M - 3
  {
    Distrib(M, a, M + b);
    assert a * (M + b) == a * M + a * b;
    MulMono(a, b, M - 1);
    MulMono(M - 1, a, M - 1);
  }

  /** The result whose significand product is below two. */
  lemma SmallProduct(x: Word, y: Word, R: nat, s: nat)
    requires Normal(x) && Normal(y) && R < M && s < M
    requires SignificandsProduct(x, y) == M * (M + R) + s
    ensures var w := PackedSmall(Exponent(x) + Exponent(y) - 127, R, s);
      w >= 0 && FlushedNearest(M, E, ExactProduct(x, y), Pow2(149), w)
  {
    hide ExactProduct, SignificandsProduct, Pow2, FlushedNearest;
    var v := Exponent(x) + Exponent(y);
    ProductExponent(x, y, 23, v);
    DeliverSmallProduct(ExactProduct(x, y), SignificandsProduct(x, y), R, s, v);
  }

  lemma DeliverSmallProduct(P: nat, A: nat, R: nat, s: nat, v: nat)
    requires P * Pow2(23) * Pow2(128) == A * Pow2(149) * Pow2(v) && A == M * (M + R) + s
    requires R < M && s < M
    ensures 0 <= PackedSmall(v - 127, R, s) && FlushedNearest(M, E, P, Pow2(149), PackedSmall(v - 127, R, s))
  {
    hide Pow2, FlushedNearest;
    assert Pow2(23) == M by { PowValues(); }
    RoundSmall(A, R, s, v - 127);
    Deliver(M, E, P, Pow2(149), A, M, RoundedSmall(R, s), 128, v);
  }

  function RoundedSmall(R: nat, s: nat): nat {
    0x80_0000 + R + (if s > 0x40_0000 || (s == 0x40_0000 && R % 2 == 1) then 1 else 0)
  }

  function PackedSmall(e: int, R: nat, s: nat): int {
    if e >= 255 then 0x7f80_0000
    else if e >= 1 then (e - 1) * 0x80_0000 + RoundedSmall(R, s)
    else if e == 0 && R == 0x7f_ffff then 0x80_0000
    else 0
  }

  lemma RoundSmall(A: nat, R: nat, s: nat, e: int)
    requires R < 0x80_0000 && s < 0x80_0000 && A == 0x80_0000 * (0x80_0000 + R) + s
    ensures RoundsTo(A, M, RoundedSmall(R, s)) && M * M <= A < 2 * M * M
    ensures Delivered(M, E, A, M, RoundedSmall(R, s), e) == PackedSmall(e, R, s)
    ensures M <= RoundedSmall(R, s) <= 2 * M
  {
  }

  /** The result whose significand product is at least two. */
  lemma LargeProduct(x: Word, y: Word, R: nat, s: nat)
    requires Normal(x) && Normal(y) && M <= R < 3 * M - 3 && s < M
    requires SignificandsProduct(x, y) == M * (M + R) + s
    ensures var w := PackedLarge(Exponent(x) + Exponent(y) - 126, R, s);
      w >= 0 && FlushedNearest(M, E, ExactProduct(x, y), Pow2(149), w)
  {
    hide ExactProduct, SignificandsProduct, Pow2, FlushedNearest;
    var v := Exponent(x) + Exponent(y);
    ProductExponent(x, y, 24, v + 1);
    DeliverLargeProduct(ExactProduct(x, y), SignificandsProduct(x, y), R, s, v);
  }

  lemma DeliverLargeProduct(P: nat, A: nat, R: nat, s: nat, v: nat)
    requires P * Pow2(24) * Pow2(128) == A * Pow2(149) * Pow2(v + 1) && A == M * (M + R) + s
    requires M <= R < 3 * M - 3 && s < M
    ensures 0 <= PackedLarge(v - 126, R, s) && FlushedNearest(M, E, P, Pow2(149), PackedLarge(v - 126, R, s))
  {
    hide Pow2, FlushedNearest;
    assert Pow2(24) == 2 * M by { PowValues(); }
    RoundLarge(A, R, s, v - 126);
    Deliver(M, E, P, Pow2(149), A, 2 * M, RoundedLarge(R, s), 128, v + 1);
  }

  function RoundedLarge(R: nat, s: nat): nat {
    0x40_0000 + R / 2 + (if R % 2 == 1 && (s > 0 || (R / 2) % 2 == 1) then 1 else 0)
  }

  function PackedLarge(e: int, R: nat, s: nat): int {
    if e >= 255 then 0x7f80_0000
    else if e >= 1 then (e - 1) * 0x80_0000 + RoundedLarge(R, s)
    else if e == 0 && R >= 0x17f_fffe then 0x80_0000   // never reached by a product of significands
    else 0
  }

  lemma RoundLarge(A: nat, R: nat, s: nat, e: int)
    requires 0x80_0000 <= R < 0x180_0000 - 3 && s < 0x80_0000 && A == 0x80_0000 * (0x80_0000 + R) + s
    ensures RoundsTo(A, 2 * M, RoundedLarge(R, s)) && M * (2 * M) <= A < 2 * M * (2 * M)
    ensures Delivered(M, E, A, 2 * M, RoundedLarge(R, s), e) == PackedLarge(e, R, s)
    ensures M <= RoundedLarge(R, s) <= 2 * M
  {
  }

  lemma ZeroProduct(x: Word, y: Word)
    requires Exponent(x) == 0 || Exponent(y) == 0
    ensures FlushedNearest(M, E, ExactProduct(x, y), Pow2(149), 0)
  {
    assert ExactProduct(x, y) == 0;
    NearestSmall(M, E, 0, Pow2(149), 0);
  }

  // ---- the routine --------------------------------------------------------------------------------

  /** Clearing the bottom bit, `lsrs` then `lsls`. */
  function Even(r: Word): Word {
    Lsl(Lsr(r, 2), 2)
  }

  /** Rounding and packing of a product below two, with sign r14. */
  method PackSmall(r0in: Word, r3in: Word, exponent: Word, r14: Word, ghost s: nat) returns (r: Word)
    requires r0in < M && s < M && r3in == s * 0x200 && (r14 == 0 || r14 == 0x8000_0000)
    requires -0x8000 < Signed(exponent) < 0x2_0000
    ensures Sign(r) == Sign(r14)
    ensures Magnitude(r) == PackedSmall(Signed(exponent) + 1, r0in, s)
  {
    hide Wrap;
    var r0, r3, r7 := r0in, r3in, exponent;
    SignedAdd(r7, 1);
    AddSmall(r0, 1);
    if r7 >= 254 {
      if Signed(r7) >= 254 { return 0x7f80_0000 + r14; }
      r7 := Add(r7, 1);
      if r7 != 0 { return r14; }
      r0 := Add(r0, 1);
      r0 := Lsr(r0, 0x80_0000);
      if r0 == 0 { return r14; }
      return 0x80_0000 + r14;
    }
    var carry := r3 >= 0x8000_0000;
    StickyBits(s);
    r3 := Lsl(r3, 2);
    if carry {
      if r3 == 0 {
        r0 := Add(r0, 1);
        EvenClears(r0);
        r0 := Even(r0);
      } else {
        r0 := Add(r0, 1);
      }
    }
    assert r0 + 0x80_0000 == RoundedSmall(r0in, s);
    r7 := Add(r7, 1);
    LslSmall(r7, 0x80_0000);
    r7 := Lsl(r7, 0x80_0000);
    AddSmall(r0, r7);
    r0 := Add(r0, r7);
    AddSmall(r0, r14);
    r := Add(r0, r14);
  }

  /** Shifting the bits off the bottom left by one leaves the sticky bits. */
  lemma StickyBits(s: nat)
    requires s < 0x80_0000
    ensures Lsl(s * 0x200, 2) == 0 <==> s == 0 || s == 0x40_0000
  {
    if s < 0x40_0000 {
      WrapSmall(s * 0x400);
    } else {
      WrapShift((s - 0x40_0000) * 0x400, 1);
      WrapSmall((s - 0x40_0000) * 0x400);
    }
  }

  lemma EvenClears(r: Word)
    ensures Even(r) == r - r % 2
  {
    LslSmall(r / 2, 2);
  }

  /** Rounding and packing of a product of at least two. */
  method PackLarge(r0in: Word, r3in: Word, exponent: Word, r14: Word, ghost s: nat) returns (r: Word)
    requires M <= r0in < 3 * M && s < M && r3in == s * 0x200 && (r14 == 0 || r14 == 0x8000_0000)
    requires -0x8000 < Signed(exponent) < 0x2_0000
    ensures Sign(r) == Sign(r14)
    ensures Magnitude(r) == PackedLarge(Signed(exponent) + 2, r0in, s)
  {
    hide Wrap;
    var r0, r3, r7 := r0in, r3in, exponent;
    SignedAdd(r7, 1);
    r7 := Add(r7, 1);
    if r7 >= 254 {
      if Signed(r7) >= 254 { return 0x7f80_0000 + r14; }
      SignedAdd(r7, 1);
      r7 := Add(r7, 1);
      if r7 != 0 { return r14; }
      AddSmall(r0, 2);
      r0 := Add(r0, 2);
      r0 := Lsr(r0, 0x80_0000);
      if r0 != 3 { return r14; }
      return 0x80_0000 + r14;
    }
    var carry := CarryLsr(r0, 2);
    r0 := Lsr(r0, 2);
    if carry {
      AddSmall(r0, 1);
      r0 := Add(r0, 1);
      EvenClears(r0);
      if r3 == 0 { r0 := Even(r0); }
    }
    assert r0 + 0x40_0000 == RoundedLarge(r0in, s);
    AddSmall(r7, r7);
    r7 := Add(r7, r7);
    AddSmall(r7, 1);
    r7 := Add(r7, 1);
    LslSmall(r7, 0x40_0000);
    r7 := Lsl(r7, 0x40_0000);
    AddSmall(r0, r7);
    r0 := Add(r0, r7);
    AddSmall(r0, r14);
    r := Add(r0, r14);
  }

  /** The exponent a multiplication uses: zero and denormal operands get a very negative one, infinities and
      NaNs a very large one. */
  function AdjustedExponent(e: nat): int {
    if e == 0 then -4096 else if e == 255 then 65280 else e
  }

  method UnpackExponent(x: Word) returns (r: Word)
    ensures Signed(r) == AdjustedExponent(Exponent(x))
  {
    r := Lsl(x, 2);
    r := Lsr(r, 0x100_0000);
    assert r == Exponent(x) by { ExponentBits(x); }
    if r == 0 { r := Sub(r, 16); r := Lsl(r, 0x100); }
    else if r == 255 { r := Lsl(r, 0x100); }
  }

  method UnpackFraction(x: Word) returns (r: Word)
    ensures r == Fraction(x)
  {
    hide Wrap;
    r := Lsl(x, 2);
    r := Lsl(r, 0x100);
    r := Lsr(r, 0x200);
    FractionBits(x);
  }

  lemma FractionBits(x: Word)
    ensures Lsl(Lsl(x, 2), 0x100) / 0x200 == Fraction(x)
  {
    ExponentBits(x);
    WrapShift(0x200 * Fraction(x), Exponent(x));
    WrapSmall(0x200 * Fraction(x));
  }

  method UnpackSign(x: Word, y: Word) returns (r14: Word)
    ensures r14 == 0 || r14 == 0x8000_0000
    ensures Sign(r14) == (Sign(x) + Sign(y)) % 2
  {
    var r2 := Xor(32, x, y);
    SignXor(x, y);
    r2 := Lsr(r2, 0x8000_0000);
    r14 := Lsl(r2, 0x8000_0000);
  }

  /** x * y, correctly rounded for all finite operands (denormal operands count as zero), with denormal results
      flushed to zero; infinities and NaNs give an infinity. */
  method Fmul(x: Word, y: Word) returns (r: Word)
    ensures Sign(r) == (Sign(x) + Sign(y)) % 2
    ensures Exponent(x) < 255 && Exponent(y) < 255 ==>
      FlushedNearest(M, E, ExactProduct(x, y), Pow2(149), Magnitude(r))
    ensures Exponent(x) == 255 || Exponent(y) == 255 ==> Magnitude(r) == E * M
  {
    hide Wrap;
    var r14 := UnpackSign(x, y);
    var r2 := UnpackExponent(x);
    var r3 := UnpackExponent(y);
    ExponentSum(r2, r3);
    var r7 := Add(r2, r3);
    r7 := Sub(r7, 128);
    var r0 := UnpackFraction(x);
    var r1 := UnpackFraction(y);
    SignificandProduct(r0, r1);
    r0, r3 := FractionProduct(r0, r1);
    ghost var R, s := r0, Fraction(x) * Fraction(y) % M;
    r1 := Lsr(r0, 0x80_0000);
    if r1 == 0 {
      r := PackSmall(r0, r3, r7, r14, s);
      if Normal(x) && Normal(y) { SmallProduct(x, y, R, s); }
    } else {
      r := PackLarge(r0, r3, r7, r14, s);
      if Normal(x) && Normal(y) { LargeProduct(x, y, R, s); }
    }
    if Exponent(x) == 0 || Exponent(y) == 0 { ZeroProduct(x, y); }
  }

  lemma ExponentSum(r2: Word, r3: Word)
    requires -0x1_0000 < Signed(r2) < 0x1_0000 && -0x1_0000 < Signed(r3) < 0x1_0000
    ensures Signed(Sub(Add(r2, r3), 128)) == Signed(r2) + Signed(r3) - 128
  {
    var j, k := (if r2 < 0x8000_0000 then 0 else 1), (if r3 < 0x8000_0000 then 0 else 1);
    WrapShift(Signed(r2) + Signed(r3), j + k);
    SignedWrap(Signed(r2) + Signed(r3));
    SignedAdd(Add(r2, r3), -128);
  }
}
