/** Double-precision multiplication in 32-bit registers (mdunpack, mul32_32_64 and mufp_dmul). */
module DoubleMul {
  import opened Bits
  import opened Rounding
  import opened Single

  const DM: nat := 0x10_0000_0000_0000   // the implied significand bit, 2^52
  const DE: nat := 2047                  // biased exponent of infinities
  const UNIT: int := 0x1_0000_0000       // weight of the second register of a number

  // ---- packed doubles: low word, high word -------------------------------------------------------------

  function DExponent(hi: Word): nat { hi / 0x10_0000 % 2048 }

  function DFraction(lo: Word, hi: Word): nat { hi % 0x10_0000 * UNIT + lo }

  function DMagnitude(lo: Word, hi: Word): nat { hi % 0x8000_0000 * UNIT + lo }

  predicate DNormal(hi: Word) { 1 <= DExponent(hi) <= 2046 }

  /** The exact magnitude in units of 2^-1074, with denormal operands read as zero. */
  ghost function DValue(lo: Word, hi: Word): nat {
    if DExponent(hi) == 0 then 0 else Mag(DM, DMagnitude(lo, hi))
  }

  lemma DMagnitudeFields(lo: Word, hi: Word)
    ensures DMagnitude(lo, hi) == DExponent(hi) * DM + DFraction(lo, hi) && DFraction(lo, hi) < DM
    ensures hi == Sign(hi) * 0x8000_0000 + DExponent(hi) * 0x10_0000 + hi % 0x10_0000 && Sign(hi) < 2
  {
  }

  lemma DValueFields(lo: Word, hi: Word)
    requires DExponent(hi) >= 1
    ensures DValue(lo, hi) == (DM + DFraction(lo, hi)) * Pow2(DExponent(hi) - 1)
  {
    DMagnitudeFields(lo, hi);
    MagFields(DM, DExponent(hi), DFraction(lo, hi));
  }

  // ---- the 32 x 32 -> 64 multiplication ------------------------------------------------------------------

  /** Cross products of 16-bit halves. */
  lemma HalfProducts(x: Word, y: Word)
    ensures var xl, xh, yl, yh := x % 0x1_0000, x / 0x1_0000, y % 0x1_0000, y / 0x1_0000;
      && x * y == xl * yl + 0x1_0000 * (xh * yl + xl * yh) + UNIT * (xh * yh)
      && xl * yl <= 0xfffe_0001 && xh * yl <= 0xfffe_0001 && xl * yh <= 0xfffe_0001 && xh * yh <= 0xfffe_0001
  {
    var xl, xh, yl, yh := x % 0x1_0000, x / 0x1_0000, y % 0x1_0000, y / 0x1_0000;
    SumProducts(0x1_0000 * xh, xl, 0x1_0000 * yh, yl);
    HalfProduct(xl, yl);
    HalfProduct(xh, yl);
    HalfProduct(xl, yh);
    HalfProduct(xh, yh);
    MulAssoc(0x1_0000, xh, yl);
    MulAssoc(0x1_0000, xh, 0x1_0000 * yh);
    assert xh * (0x1_0000 * yh) == 0x1_0000 * (xh * yh);
    assert xl * (0x1_0000 * yh) == 0x1_0000 * (xl * yh);
  }

  lemma SumProducts(a: int, b: int, c: int, d: int)
    ensures (a + b) * (c + d) == a * c + a * d + b * c + b * d
  {
  }

  lemma HalfProduct(a: nat, b: nat)
    requires a < 0x1_0000 && b < 0x1_0000
    ensures 0 <= a * b <= 0xfffe_0001
  {
    MulMono(a, 0, b);
    MulMono(a, b, 0xffff);
    MulMono(0xffff, a, 0xffff);
  }

  /** The four partial products, the two cross ones added up. */
  method CrossProducts(x: Word, y: Word) returns (low: Word, middle: Word, carry: bool, high: Word)
    ensures low + 0x1_0000 * (middle + (if carry then UNIT else 0)) + UNIT * high == x * y
    ensures high <= 0xfffe_0001
  {
    hide Wrap, Mul;
    HalfProducts(x, y);
    var xl, yl := x % 0x1_0000, y % 0x1_0000;
    var xh := Lsr(x, 0x1_0000);
    var yh := Lsr(y, 0x1_0000);
    WordProduct(xl, yl);
    WordProduct(xh, yl);
    WordProduct(xh, yh);
    WordProduct(xl, yh);
    low := Mul(xl, yl);
    var m0 := Mul(yl, xh);
    assert m0 == xh * yl by { MulCommutes(xh, yl); }
    high := Mul(xh, yh);
    var m1 := Mul(xl, yh);
    CarryOut(m0, m1);
    carry := m0 + m1 >= UNIT;
    middle := Add(m0, m1);
  }

  lemma MulCommutes(a: int, b: int)
    ensures Mul(a, b) == Mul(b, a)
  {
  }

  /** mul32_32_64: the low and high words of the exact 64-bit product. */
  method Mul32(x: Word, y: Word) returns (zl: Word, zh: Word)
    ensures zh * UNIT + zl == x * y
  {
    hide Wrap;
    var t0, t1, carry, t2 := CrossProducts(x, y);
    if carry {
      AddSmall(t2, 0x1_0000);
      t2 := Add(t2, 0x1_0000);
    }
    MiddleShift(t1);
    zl := Lsl(t1, 0x1_0000);
    zh := Lsr(t1, 0x1_0000);
    CarryOut(zl, t0);
    var carry' := if zl + t0 >= UNIT then 1 else 0;
    zl := Add(zl, t0);
    ProductFits(x, y);
    AddSmall(zh + t2, carry');
    zh := Add(zh + t2, carry');
  }

  lemma ProductFits(x: Word, y: Word)
    ensures 0 <= x * y < UNIT * UNIT
  {
    MulMono(x, 0, y);
    MulMono(x, y, UNIT - 1);
    MulMono(UNIT - 1, x, UNIT - 1);
  }

  lemma WordProduct(a: nat, b: nat)
    requires a < 0x1_0000 && b < 0x1_0000
    ensures Mul(a, b) == a * b
  {
    HalfProduct(a, b);
    WrapSmall(a * b);
  }

  lemma CarryOut(a: Word, b: Word)
    ensures Add(a, b) == (if a + b >= UNIT then a + b - UNIT else a + b)
  {
  }

  lemma MiddleShift(t: Word)
    ensures Lsr(t, 0x1_0000) * UNIT + Lsl(t, 0x1_0000) == 0x1_0000 * t
  {
    var q, r := t / 0x1_0000, t % 0x1_0000;
    assert t * 0x1_0000 == r * 0x1_0000 + UNIT * q;
    WrapShift(r * 0x1_0000, q);
    WrapSmall(r * 0x1_0000);
  }

  // ---- unpacking -----------------------------------------------------------------------------------------

  /** The exponent a multiplication uses: zero and denormal operands get a very negative one, infinities and
      NaNs a very large one. */
  function UnpackedExponent(hi: Word): int {
    if DExponent(hi) == 0 then -0x8_0000 else if DExponent(hi) == 2047 then 0x77_f000 else DExponent(hi)
  }

  function UnpackedFraction(lo: Word, hi: Word): nat {
    if DNormal(hi) then DFraction(lo, hi) else 0
  }

  /** mdunpack */
  method Unpack(lo: Word, hi: Word) returns (ra: Word, rb: Word, re: Word, rs: Word)
    ensures rb * UNIT + ra == DM + UnpackedFraction(lo, hi)
    ensures Signed(re) == UnpackedExponent(hi) && rs == Sign(hi)
  {
    hide Wrap;
    DMagnitudeFields(lo, hi);
    re := Lsr(hi, 0x10_0000);
    InsertOne(hi, re);
    rs := Lsl(Sub(re, 1), 0x10_0000);
    ra, rb := lo, Sub(hi, rs);
    rs := Lsr(re, 0x800);
    LowExponent(re);
    re := Lsl(re, 0x20_0000);
    re := Lsr(re, 0x20_0000);
    if re != 0 {
      AddSmall(re, 1);
      var rt := Add(re, 1);
      rt := Lsr(rt, 0x800);
      if rt == 0 { return; }
    }
    ra, rb := 0, 0x10_0000;
    ExtremeExponents();
    re := Sub(re, 128);
    re := Lsl(re, 0x1000);
  }

  lemma InsertOne(hi: Word, re: Word)
    requires re == hi / 0x10_0000
    ensures Sub(hi, Lsl(Sub(re, 1), 0x10_0000)) == hi % 0x10_0000 + 0x10_0000
    ensures re / 0x800 == Sign(hi) && re % 2048 == DExponent(hi)
  {
    var v := (re - 1) * 0x10_0000;
    assert hi - v == hi % 0x10_0000 + 0x10_0000;
    DivDiv(hi, 0x10_0000, 0x800);
    hide Wrap;
    WrapMul(re - 1, 0x10_0000);
    WrapSub(hi, v);
    WrapSmall(hi);
    WrapSmall(hi % 0x10_0000 + 0x10_0000);
  }

  lemma LowExponent(re: Word)
    requires re < 0x1000
    ensures Lsl(re, 0x20_0000) / 0x20_0000 == re % 2048
  {
    WrapShift(re % 2048 * 0x20_0000, re / 2048);
    WrapSmall(re % 2048 * 0x20_0000);
  }

  lemma ExtremeExponents()
    ensures Signed(Lsl(Sub(0, 128), 0x1000)) == -0x8_0000 && Signed(Lsl(Sub(2047, 128), 0x1000)) == 0x77_f000
  {
  }

  // ---- the 106-bit product ----------------------------------------------------------------------------------

  /** The number in three registers, lowest first. */
  function Triple(a: Word, b: Word, c: Word): nat { c * (UNIT * UNIT) + b * UNIT + a }

  /** `adds`, `adcs`, `adcs`: a two-register number added to a three-register one. */
  method Accumulate(a: Word, b: Word, c: Word, lo: Word, hi: Word) returns (a': Word, b': Word, c': Word)
    requires Triple(a, b, c) + Triple(lo, hi, 0) < UNIT * UNIT * UNIT
    ensures Triple(a', b', c') == Triple(a, b, c) + Triple(lo, hi, 0)
  {
    hide Wrap;
    CarryOut(a, lo);
    a' := Add(a, lo);
    var carry := if a + lo >= UNIT then 1 else 0;
    AddWithCarry(b, hi, carry);
    b' := Add(b + hi, carry);
    carry := if b + hi + carry >= UNIT then 1 else 0;
    AddSmall(c, carry);
    c' := Add(c, carry);
  }

  lemma AddWithCarry(b: Word, d: Word, carry: nat)
    requires carry <= 1
    ensures Add(b + d, carry) == (if b + d + carry >= UNIT then b + d + carry - UNIT else b + d + carry)
  {
  }

  /** A significand in two words. */
  predicate DSignificand(lo: Word, hi: Word) { 0x10_0000 <= hi < 0x20_0000 }

  lemma LongProduct(xl: Word, xh: Word, yl: Word, yh: Word)
    requires DSignificand(xl, xh) && DSignificand(yl, yh)
    ensures (xh * UNIT + xl) * (yh * UNIT + yl) == xl * yl + UNIT * (xl * yh + xh * yl) + UNIT * UNIT * (xh * yh)
    ensures DM * DM <= (xh * UNIT + xl) * (yh * UNIT + yl) < 4 * DM * DM
    ensures xl * yl >= 0 && xl * yh >= 0 && xh * yl >= 0 && xh * yh >= 0
  {
    SumProducts(xh * UNIT, xl, yh * UNIT, yl);
    MulAssoc(UNIT, xh, yh * UNIT);
    MulAssoc(UNIT, xh, yl);
    MulAssoc(xh, yh, UNIT);
    MulAssoc(xl, yh, UNIT);
    var x, y := xh * UNIT + xl, yh * UNIT + yl;
    MulMono(x, DM, y);
    MulMono(DM, DM, x);
    MulMono(x, y, 2 * DM - 1);
    MulMono(2 * DM - 1, x, 2 * DM - 1);
    MulMono(xl, 0, yl);
    MulMono(xl, 0, yh);
    MulMono(xh, 0, yl);
    MulMono(xh, 0, yh);
  }

  /** The four partial products of mufp_dmul: the exact product in r12:r5:r6:r7. */
  method Product(xl: Word, xh: Word, yl: Word, yh: Word) returns (r12: Word, r5: Word, r6: Word, r7: Word)
    requires DSignificand(xl, xh) && DSignificand(yl, yh)
    ensures Triple(r5, r6, r7) * UNIT + r12 == (xh * UNIT + xl) * (yh * UNIT + yl)
  {
    hide Wrap;
    LongProduct(xl, xh, yl, yh);
    r12, r5 := Mul32(xl, yl);
    r6, r7 := Mul32(xh, yh);
    ghost var first := Triple(r5, r6, r7);
    var lo, hi := Mul32(xl, yh);
    assert Triple(lo, hi, 0) == xl * yh;
    r5, r6, r7 := Accumulate(r5, r6, r7, lo, hi);
    lo, hi := Mul32(xh, yl);
    assert Triple(lo, hi, 0) == xh * yl;
    r5, r6, r7 := Accumulate(r5, r6, r7, lo, hi);
  }

  // ---- normalising and rounding ------------------------------------------------------------------------------

  /** The top words of the product shifted left by 11 places. */
  method ShiftUp(r5: Word, r6: Word, r7: Word) returns (r5': Word, r0: Word, r1: Word)
    requires Triple(r5, r6, r7) < UNIT * UNIT * 0x400
    ensures Triple(r5', r0, r1) == Triple(r5, r6, r7) * 0x800
  {
    hide Wrap;
    assert r7 < 0x400;
    r1 := Lsl(r7, 0x800);
    LslSmall(r7, 0x800);
    JoinFields(r7, r6);
    r1 := Or(32, r1, Lsr(r6, 0x20_0000));
    LowFields(r6);
    r0 := Lsl(r6, 0x800);
    JoinFields(r6 % 0x20_0000, r5);
    r0 := Or(32, r0, Lsr(r5, 0x20_0000));
    LowFields(r5);
    r5' := Lsl(r5, 0x800);
  }

  lemma JoinFields(high: Word, low: Word)
    requires high < 0x20_0000
    ensures Or(32, high * 0x800, low / 0x20_0000) == high * 0x800 + low / 0x20_0000
  {
    assert Pow2(11) == 0x800 && Pow2(21) == 0x20_0000 by {
      assert Pow2(11) == 0x800;
      Pow2Add(11, 10);
    }
    OrFields(32, 11, high, low / 0x20_0000);
  }

  lemma LowFields(r: Word)
    ensures Lsl(r, 0x800) == r % 0x20_0000 * 0x800
  {
    WrapShift(r % 0x20_0000 * 0x800, r / 0x20_0000);
    WrapSmall(r % 0x20_0000 * 0x800);
  }

  /** `adds`, `adcs`, `adcs` of a number to itself. */
  method DoubleTriple(a: Word, b: Word, c: Word) returns (a': Word, b': Word, c': Word)
    requires c < 0x10_0000
    ensures Triple(a', b', c') == 2 * Triple(a, b, c)
  {
    hide Wrap;
    CarryOut(a, a);
    a' := Add(a, a);
    var carry := if a + a >= UNIT then 1 else 0;
    AddWithCarry(b, b, carry);
    b' := Add(b + b, carry);
    carry := if b + b + carry >= UNIT then 1 else 0;
    AddSmall(c + c, carry);
    c' := Add(c + c, carry);
  }

  /** T / B rounded to an integer, ties to even. */
  function DRounded(T: nat, B: nat): nat
    requires B > 0
  {
    Floor(T, B);
    var q, low := T / B, T % B;
    if 2 * low > B || (2 * low == B && q % 2 == 1) then q + 1 else q
  }

  /** The divisor that brings the product T of two significands into the range of one. */
  function Scale(T: nat): nat { if T < 2 * DM * DM then DM else 2 * DM }

  /** The registers r5:r0:r1 and r12 hold quotient, rounding bit and sticky bits of the product. */
  ghost predicate Scaled(T: nat, r5: Word, r0: Word, r1: Word, r12: Word) {
    var B := Scale(T);
    && r1 * UNIT + r0 == T / B
    && (r5 >= 0x8000_0000 <==> 2 * (T % B) >= B)
    && (Lsl(r5, 2) == 0 && r12 == 0 <==> T % B == 0 || 2 * (T % B) == B)
  }

  lemma StickyWord(r5: Word)
    ensures Lsl(r5, 2) == 0 <==> r5 == 0 || r5 == 0x8000_0000
  {
    if r5 < 0x8000_0000 {
      WrapSmall(2 * r5);
    } else {
      WrapShift(2 * (r5 - 0x8000_0000), 1);
      WrapSmall(2 * (r5 - 0x8000_0000));
    }
  }

  lemma ScaledSmall(T: nat, W: nat, r5: Word, r0: Word, r1: Word, r12: Word)
    requires T == W * UNIT + r12 && T < 2 * DM * DM && Triple(r5, r0, r1) == W * 0x1000
    ensures Scaled(T, r5, r0, r1, r12)
  {
    var q, w := W / 0x10_0000, W % 0x10_0000;
    assert r1 * UNIT + r0 == q && r5 == w * 0x1000;
    DivModUnique(T, DM, q, w * UNIT + r12);
    StickyWord(r5);
    assert T % Scale(T) == w * UNIT + r12 && T / Scale(T) == q;
    hide Scale, Lsl;
  }

  lemma ScaledLarge(T: nat, W: nat, r5: Word, r0: Word, r1: Word, r12: Word)
    requires T == W * UNIT + r12 && T >= 2 * DM * DM && Triple(r5, r0, r1) == W * 0x800
    ensures Scaled(T, r5, r0, r1, r12)
  {
    var q, w := W / 0x20_0000, W % 0x20_0000;
    assert r1 * UNIT + r0 == q && r5 == w * 0x800;
    DivModUnique(T, 2 * DM, q, w * UNIT + r12);
    StickyWord(r5);
    assert T % Scale(T) == w * UNIT + r12 && T / Scale(T) == q;
    hide Scale, Lsl;
  }

  /** Rounding bit to carry, round up through both words, and back to even on a tie. */
  method Round(r0in: Word, r1in: Word, r5in: Word, r12: Word, ghost T: nat) returns (r0: Word, r1: Word)
    requires Scaled(T, r5in, r0in, r1in, r12) && r1in < 0x20_0000
    ensures r1 * UNIT + r0 == DRounded(T, Scale(T)) && r1 <= 0x20_0000
  {
    hide Wrap, Lsl;
    r0, r1 := r0in, r1in;
    var carry := r5in >= 0x8000_0000;
    var r5 := Lsl(r5in, 2);
    if carry {
      CarryOut(r0, 1);
      var carry' := if r0 + 1 >= UNIT then 1 else 0;
      r0 := Add(r0, 1);
      AddSmall(r1, carry');
      r1 := Add(r1, carry');
      OrOfWords(r5, r12);
      r5 := Or(32, r5, r12);
      if r5 == 0 {
        r0 := Lsr(r0, 2);
        LslSmall(r0, 2);
        r0 := Lsl(r0, 2);
      }
    }
  }

  lemma OrOfWords(x: Word, y: Word)
    ensures Or(32, x, y) < UNIT && (Or(32, x, y) == 0 <==> x == 0 && y == 0)
  {
    PowValues();
    OrIsZero(32, x, y);
  }

  /** What is packed for the product T and exponent e. */
  function PackedProduct(T: nat, e: int): int {
    if e >= 2046 then DE * DM
    else if e >= 0 then e * DM + DRounded(T, Scale(T))
    else if e == -1 && T >= (2 * DM - 1) * Scale(T) then DM
    else 0
  }

  lemma RoundedProduct(T: nat, e: int)
    requires DM * DM <= T < 4 * DM * DM
    ensures var B, m := Scale(T), DRounded(T, Scale(T));
      && RoundsTo(T, B, m) && DM * B <= T < 2 * DM * B && DM <= m <= 2 * DM
      && Delivered(DM, DE, T, B, m, e + 1) == PackedProduct(T, e)
  {
    if T < 2 * DM * DM { RoundedBySmall(T); } else { RoundedByLarge(T); }
    hide DRounded;
  }

  lemma RoundedBySmall(T: nat)
    requires DM * DM <= T < 2 * DM * DM
    ensures RoundsTo(T, DM, DRounded(T, DM)) && DM <= DRounded(T, DM) <= 2 * DM
  {
  }

  lemma RoundedByLarge(T: nat)
    requires 2 * DM * DM <= T < 4 * DM * DM
    ensures RoundsTo(T, 2 * DM, DRounded(T, 2 * DM)) && DM <= DRounded(T, 2 * DM) <= 2 * DM
  {
  }

  lemma AllOnes(T: nat, r0: Word, r1: Word)
    requires DM * DM <= T < 4 * DM * DM && r1 * UNIT + r0 == T / Scale(T)
    ensures r1 < 0x20_0000 && (r0 == 0xffff_ffff && r1 == 0x1f_ffff <==> T >= (2 * DM - 1) * Scale(T))
  {
  }

  /** The range check, rounding and packing, overflow, underflow, and the trap for the smallest normal number. */
  method Pack(r0in: Word, r1in: Word, r5: Word, r12: Word, r3: Word, r4: Word, ghost T: nat) returns (lo: Word, hi: Word)
    requires DM * DM <= T < 4 * DM * DM && Scaled(T, r5, r0in, r1in, r12) && r4 < 2
    ensures Sign(hi) == r4 && DMagnitude(lo, hi) == PackedProduct(T, Signed(r3))
  {
    hide Wrap, DRounded, Scale;
    var r0, r1 := r0in, r1in;
    LslSmall(r4, 0x8000_0000);
    var sign := Lsl(r4, 0x8000_0000);
    AllOnes(T, r0, r1);
    if r3 < 0x7fe {
      RoundedProduct(T, Signed(r3));
      r0, r1 := Round(r0, r1, r5, r12, T);
      LslSmall(r3, 0x10_0000);
      var r3' := Lsl(r3, 0x10_0000);
      AddSmall(r1, r3');
      r1 := Add(r1, r3');
      AddSmall(r1, sign);
      return r0, Add(r1, sign);
    }
    if Signed(r3) >= 0x7fe {
      LslSmall(0x7ff, 0x10_0000);
      r1 := Lsl(0x7ff, 0x10_0000);
      AddSmall(r1, sign);
      return 0, Add(r1, sign);
    }
    SignedAdd(r3, 1);
    if Add(r3, 1) == 0 {
      CarryOut(r0, 1);
      r0 := Add(r0, 1);
      if r0 == 0 {
        AddSmall(r1, 1);
        r1 := Add(r1, 1);
        if Lsr(r1, 0x20_0000) != 0 {
          r1 := Lsr(r1, 2);
          AddSmall(r1, sign);
          return r0, Add(r1, sign);
        }
      }
    }
    return 0, sign;
  }

  // ---- the routine ---------------------------------------------------------------------------------------------

  /** The exact product in units of 2^-2148. */
  ghost function DExactProduct(xl: Word, xh: Word, yl: Word, yh: Word): nat { DValue(xl, xh) * DValue(yl, yh) }

  lemma ProductExponent(xl: Word, xh: Word, yl: Word, yh: Word, T: nat, b: nat, u: nat, v: nat, q: nat)
    requires DNormal(xh) && DNormal(yh) && T == (DM + DFraction(xl, xh)) * (DM + DFraction(yl, yh))
    requires DExponent(xh) + DExponent(yh) - 2 + b + u == q + v
    ensures Shl(Shl(DExactProduct(xl, xh, yl, yh), b), u) == Shl(Shl(T, q), v)
  {
    var i, j := DExponent(xh) - 1, DExponent(yh) - 1;
    assert DExactProduct(xl, xh, yl, yh) == Shl(T, i + j) by {
      DValueFields(xl, xh);
      DValueFields(yl, yh);
      PowerProduct(DM + DFraction(xl, xh), i, DM + DFraction(yl, yh), j);
    }
    hide Shl, DExactProduct;
    SameScale(DExactProduct(xl, xh, yl, yh), T, i + j, b, u, q, v);
  }

  lemma SignificandPower()
    ensures Pow2(52) == DM && Pow2(53) == 2 * DM
  {
    PowValues();
    Pow2Add(24, 24);
    Pow2Add(48, 4);
    Pow2Add(52, 1);
  }

  lemma DeliverProduct(xl: Word, xh: Word, yl: Word, yh: Word, T: nat, e: int, q: nat)
    requires DNormal(xh) && DNormal(yh) && T == (DM + DFraction(xl, xh)) * (DM + DFraction(yl, yh)) && q == 1074
    requires DM * DM <= T < 4 * DM * DM
    requires e == DExponent(xh) + DExponent(yh) - (if T < 2 * DM * DM then 1024 else 1023)
    ensures PackedProduct(T, e) >= 0
    ensures FlushedNearest(DM, DE, DExactProduct(xl, xh, yl, yh), Pow2(q), PackedProduct(T, e))
  {
    hide Pow2, DRounded, PackedProduct, FlushedNearest;
    SignificandPower();
    RoundedProduct(T, e);
    var b := if T < 2 * DM * DM then 52 else 53;
    var u, v := 1076 - b, DExponent(xh) + DExponent(yh);
    ProductExponent(xl, xh, yl, yh, T, b, u, v, q);
    Deliver(DM, DE, DExactProduct(xl, xh, yl, yh), Pow2(q), T, Scale(T), DRounded(T, Scale(T)), u, v);
  }

  lemma ZeroProduct(P: nat, q: nat)
    requires P == 0
    ensures FlushedNearest(DM, DE, P, Pow2(q), 0)
  {
    NearestSmall(DM, DE, 0, Pow2(q), 0);
  }

  lemma SmallXor(a: Word, b: Word)
    requires a < 2 && b < 2
    ensures Xor(32, a, b) == (a + b) % 2
  {
    XorOfBits(32, a, b);
  }

  /** Normalisation: quotient, rounding and sticky bits of the product, and the exponent without its bias. */
  method Reduce(r12: Word, r5in: Word, r6: Word, r7: Word, r3in: Word, ghost T: nat) returns (r5: Word, r0: Word, r1: Word, r3: Word)
    requires Triple(r5in, r6, r7) * UNIT + r12 == T && DM * DM <= T < 4 * DM * DM
    requires -0x1000_0000 < Signed(r3in) < 0x1000_0000
    ensures Scaled(T, r5, r0, r1, r12)
    ensures Signed(r3) == Signed(r3in) - (if T < 2 * DM * DM then 1024 else 1023)
  {
    hide Wrap, Scaled, Signed;
    ghost var W := Triple(r5in, r6, r7);
    r5, r0, r1 := ShiftUp(r5in, r6, r7);
    r3 := r3in;
    if Lsr(r1, 0x10_0000) == 0 {
      r5, r0, r1 := DoubleTriple(r5, r0, r1);
      ScaledSmall(T, W, r5, r0, r1, r12);
      SignedAdd(r3, -1);
      r3 := Sub(r3, 1);
    } else {
      ScaledLarge(T, W, r5, r0, r1, r12);
    }
    SignedAdd(r3, -0x3ff);
    r3 := Sub(r3, 0x3ff);
  }

  /** x * y, correctly rounded for all finite operands (denormal operands count as zero), with denormal results
      flushed to zero; infinities and NaNs give an infinity. */
  method Dmul(xl: Word, xh: Word, yl: Word, yh: Word) returns (lo: Word, hi: Word)
    ensures Sign(hi) == (Sign(xh) + Sign(yh)) % 2
    ensures DExponent(xh) < 2047 && DExponent(yh) < 2047 ==>
      FlushedNearest(DM, DE, DExactProduct(xl, xh, yl, yh), Pow2(1074), DMagnitude(lo, hi))
    ensures DExponent(xh) == 2047 || DExponent(yh) == 2047 ==> DMagnitude(lo, hi) == DE * DM
  {
    hide Wrap, Pow2, Scaled, FlushedNearest, PackedProduct, DExactProduct, UnpackedFraction;
    FractionRange(xl, xh);
    FractionRange(yl, yh);
    var r0, r1, r4, r6 := Unpack(xl, xh);
    var r2, r3, r12, r7 := Unpack(yl, yh);
    SmallXor(r7, r6);
    var sign := Xor(32, r7, r6);
    SignedSum(r4, r12);
    r4 := Add(r4, r12);
    LongProduct(r0, r1, r2, r3);
    ghost var T: nat := (r1 * UNIT + r0) * (r3 * UNIT + r2);
    var low, a, b, c := Product(r0, r1, r2, r3);
    var r5, m0, m1, e := Reduce(low, a, b, c, r4, T);
    lo, hi := Pack(m0, m1, r5, low, e, sign, T);
    PackedResult(xl, xh, yl, yh, T, Signed(e), 1074);
  }

  /** What is packed, for every pair of operands. */
  lemma PackedResult(xl: Word, xh: Word, yl: Word, yh: Word, T: nat, e: int, q: nat)
    requires T == (DM + UnpackedFraction(xl, xh)) * (DM + UnpackedFraction(yl, yh)) && DM * DM <= T < 4 * DM * DM
    requires e == UnpackedExponent(xh) + UnpackedExponent(yh) - (if T < 2 * DM * DM then 1024 else 1023) && q == 1074
    ensures DExponent(xh) < 2047 && DExponent(yh) < 2047 ==>
      PackedProduct(T, e) >= 0 && FlushedNearest(DM, DE, DExactProduct(xl, xh, yl, yh), Pow2(q), PackedProduct(T, e))
    ensures DExponent(xh) == 2047 || DExponent(yh) == 2047 ==> PackedProduct(T, e) == DE * DM
  {
    hide Pow2, FlushedNearest, PackedProduct, DExactProduct;
    if DNormal(xh) && DNormal(yh) {
      DeliverProduct(xl, xh, yl, yh, T, e, q);
    } else {
      ExtremeProduct(T, e);
      if DExponent(xh) == 0 || DExponent(yh) == 0 { ZeroProduct(0, q); ZeroFactor(xl, xh, yl, yh); }
    }
  }

  lemma FractionRange(lo: Word, hi: Word)
    ensures UnpackedFraction(lo, hi) < DM
  {
    DMagnitudeFields(lo, hi);
  }

  lemma ExtremeProduct(T: nat, e: int)
    ensures e >= 2046 ==> PackedProduct(T, e) == DE * DM
    ensures e < -1 ==> PackedProduct(T, e) == 0
  {
  }

  lemma ZeroFactor(xl: Word, xh: Word, yl: Word, yh: Word)
    requires DExponent(xh) == 0 || DExponent(yh) == 0
    ensures DExactProduct(xl, xh, yl, yh) == 0
  {
  }
}
