/** Single-precision addition and subtraction (mufp_fadd, mufp_fsub). */
module FloatAdd {
  import opened Bits
  import opened Rounding
  import opened Single

  // ---- operands -------------------------------------------------------------------------------------

  /** The value of a number with its sign, in units of 2^-149; denormal operands count as zero. */
  ghost function SignedValue(x: Word): int {
    var v: int := Value(x);
    if Sign(x) == 1 then -v else v
  }

  ghost function Abs(v: int): nat { if v < 0 then -v else v }

  /** The exponent an operand is given: zeros and denormals a very negative one, infinities and NaNs a very large
      one, and negative ones one less so that they lose against a positive one. */
  function FieldExponent(x: Word): int {
    if Exponent(x) == 0 then -32 - Sign(x) else if Exponent(x) == 255 then 65280 - Sign(x) else Exponent(x)
  }

  /** The significand with its sign. */
  function SignedSignificand(x: Word): int {
    if Sign(x) == 1 then -(M + Fraction(x)) else M + Fraction(x)
  }

  /** The sign mask and the exponent, with the detours for exponents 0 and 255. */
  method UnpackExponent(x: Word) returns (mask: Word, e: Word)
    ensures mask == (if Sign(x) == 1 then 0xffff_ffff else 0)
    ensures Signed(e) == FieldExponent(x)
  {
    mask := Asr(x, 0x8000_0000);
    assert mask == (if Sign(x) == 1 then 0xffff_ffff else 0) by { SignMask(x); }
    e := Lsl(x, 2);
    e := Lsr(e, 0x100_0000);
    assert e == Exponent(x) by { ExponentBits(x); }
    if e == 0 {
      e := Sub(e, 32);
      e := Add(e, mask);
    } else if e == 255 {
      e := Lsl(e, 0x100);
      e := Add(e, mask);
    }
  }

  lemma SignMask(x: Word)
    ensures Asr(x, 0x8000_0000) == (if Sign(x) == 1 then 0xffff_ffff else 0)
  {
  }

  /** The significand in two's complement. */
  method UnpackSignificand(x: Word, mask: Word) returns (r: Word)
    requires mask == (if Sign(x) == 1 then 0xffff_ffff else 0)
    ensures Signed(r) == SignedSignificand(x)
  {
    hide Wrap;
    FractionMask(x);
    r := And(32, x, 0x7f_ffff);
    InsertImpliedOne(r);
    r := Or(32, r, 0x80_0000);
    ComplementWord(r, mask);
    r := Xor(32, r, mask);
    Negate(M + Fraction(x), mask);
    r := Sub(r, mask);
  }

  lemma FractionMask(x: Word)
    ensures And(32, x, 0x7f_ffff) == Fraction(x)
  {
    PowValues();
    AndMask(32, 23, x);
  }

  lemma ComplementWord(r: Word, mask: Word)
    requires mask == 0 || mask == 0xffff_ffff
    ensures Xor(32, r, mask) == (if mask == 0 then r else 0xffff_ffff - r)
  {
    PowValues();
    if mask == 0 { XorZero(32, r); } else { XorOnes(32, r); }
  }

  lemma Negate(r: int, mask: Word)
    requires 0 <= r < 0x8000_0000 && (mask == 0 || mask == 0xffff_ffff)
    ensures Signed(Sub(if mask == 0 then r else 0xffff_ffff - r, mask)) == (if mask == 0 then r else -r)
  {
  }

  // ---- alignment ------------------------------------------------------------------------------------

  /** The 64-bit number in two registers. */
  function Pair(high: Word, low: Word): int { Signed(high) * 0x1_0000_0000 + low }

  /** Shifting a significand down d places keeps every bit in the register pair. */
  lemma ShiftDown(b: Word, d: nat)
    requires -2 * M < Signed(b) < 2 * M && d < 30
    ensures var high, low := Asr(b, Pow2(d)), Lsl(b, Pow2(32 - d));
      Pair(high, low) == Signed(b) * Pow2(32 - d) && -2 * M <= Signed(high) <= 2 * M
  {
    var s, D, U := Signed(b), Pow2(d), Pow2(32 - d);
    var q, rU := s / D, (s % D) * U;
    assert Pow2(d + (32 - d)) == 0x1_0000_0000 by { PowValues(); }
    Pow2Add(d, 32 - d);
    SplitProduct(s, D, U);
    QuotientRange(s, D);
    SignedWrap(q);
    UnsignedShift(b, U);
    hide Wrap, Pow2, Signed;
    WrapShift(rU, q);
    WrapSmall(rU);
  }

  lemma SplitProduct(s: int, D: nat, U: nat)
    requires D > 0 && U > 0 && D * U == 0x1_0000_0000
    ensures s * U == s / D * 0x1_0000_0000 + (s % D) * U
    ensures 0 <= (s % D) * U < 0x1_0000_0000
  {
    var q, r := s / D, s % D;
    assert s == D * q + r;
    Distrib(D * q, r, U);
    MulAssoc(q, D, U);
    MulMono(U, 0, r);
    MulStrict(U, r, D);
  }

  lemma UnsignedShift(b: Word, U: nat)
    ensures Lsl(b, U) == Wrap(Signed(b) * U)
  {
    WrapMul(Signed(b), U);
    assert Wrap(Signed(b)) == b;
  }

  lemma QuotientRange(s: int, D: nat)
    requires -2 * M < s < 2 * M && D > 0
    ensures -2 * M <= s / D <= 2 * M
  {
    var q := s / D;
    assert s == D * q + s % D;
    if q > 2 * M { MulMono(q, 1, D); assert false; }
    if q < -2 * M { MulMono(-q - 1, 1, D); assert false; }
  }

  /** The sum in the register pair. */
  lemma AddHigh(high: Word, low: Word, a: Word)
    requires -2 * M <= Signed(high) <= 2 * M && -2 * M < Signed(a) < 2 * M
    ensures Pair(Add(a, high), low) == Signed(a) * 0x1_0000_0000 + Pair(high, low)
    ensures Pair(Add(high, a), low) == Signed(a) * 0x1_0000_0000 + Pair(high, low)
    ensures -4 * M < Signed(Add(a, high)) < 4 * M
  {
    SignedSum(a, high);
    SignedSum(high, a);
  }

  /** The aligned sum of two operands whose exponents differ by less than 30: exact in the pair, in units of
      2^-32 of the larger operand's last place. */
  function AlignedSum(x: Word, y: Word): int
    requires -30 < FieldExponent(x) - FieldExponent(y) < 30
  {
    var d := FieldExponent(x) - FieldExponent(y);
    if d >= 0 then SignedSignificand(x) * 0x1_0000_0000 + SignedSignificand(y) * Pow2(32 - d)
    else SignedSignificand(y) * 0x1_0000_0000 + SignedSignificand(x) * Pow2(32 + d)
  }

  function Max(a: int, b: int): int { if a >= b then a else b }

  /** What alignment leaves in r0:r2: the exact aligned sum, or the larger operand alone. */
  function PairSum(x: Word, y: Word): int {
    var d := FieldExponent(x) - FieldExponent(y);
    if d >= 30 then SignedSignificand(x) * 0x1_0000_0000
    else if d <= -30 then SignedSignificand(y) * 0x1_0000_0000
    else AlignedSum(x, y)
  }

  /** Alignment: the operand with the smaller exponent is shifted down, and what is shifted off is kept. */
  method Align(r0in: Word, r1in: Word, xe: Word, ye: Word, ghost x: Word, ghost y: Word)
    returns (r0: Word, r2: Word, r3: Word)
    requires Signed(r0in) == SignedSignificand(x) && Signed(r1in) == SignedSignificand(y)
    requires Signed(xe) == FieldExponent(x) && Signed(ye) == FieldExponent(y)
    ensures Pair(r0, r2) == PairSum(x, y) && -4 * M < Signed(r0) < 4 * M
    ensures Signed(r3) == Max(FieldExponent(x), FieldExponent(y))
  {
    hide Wrap, Signed, Pow2, Pair;
    var r5 := Sub(ye, xe);
    var r4 := Sub(xe, ye);
    SignedDifference(xe, ye);
    SignedDifference(ye, xe);
    ghost var d := FieldExponent(x) - FieldExponent(y);
    SmallWord(r4);
    SmallWord(r5);
    if Signed(r4) < 0 {
      if Signed(r5) >= 30 {
        r0, r2, r3 := r1in, 0, ye;
        PairHigh(r0);
        return;
      }
      SignedAdd(r4, 32);
      r4 := Add(r4, 32);
      SmallWord(r4);
      r2 := Lsl(r0in, Pow2(r4));
      var r1 := Asr(r0in, Pow2(r5));
      ShiftDown(r0in, r5);
      AddHigh(r1, r2, r1in);
      r0 := Add(r1, r1in);
      AddCommutes(r1, r1in);
      r3 := ye;
    } else {
      if Signed(r4) >= 30 {
        r0, r2, r3 := r0in, 0, xe;
        PairHigh(r0);
        return;
      }
      SignedAdd(r5, 32);
      r5 := Add(r5, 32);
      SmallWord(r5);
      r2 := Lsl(r1in, Pow2(r5));
      var r1 := Asr(r1in, Pow2(r4));
      ShiftDown(r1in, r4);
      AddHigh(r1, r2, r0in);
      r0 := Add(r0in, r1);
      r3 := xe;
    }
  }

  lemma AddCommutes(a: Word, b: Word)
    ensures Add(a, b) == Add(b, a)
  {
  }

  lemma PairHigh(r: Word)
    ensures Pair(r, 0) == Signed(r) * 0x1_0000_0000
  {
  }

  lemma SmallWord(r: Word)
    ensures Signed(r) >= 0 ==> Signed(r) == r
  {
  }

  lemma SignedDifference(a: Word, b: Word)
    requires -0x2_0000 < Signed(a) < 0x2_0000 && -0x2_0000 < Signed(b) < 0x2_0000
    ensures Signed(Sub(a, b)) == Signed(a) - Signed(b)
  {
    var j, k := (if a < 0x8000_0000 then 0 else 1), (if b < 0x8000_0000 then 0 else 1);
    WrapShift(Signed(a) - Signed(b), j - k);
    SignedWrap(Signed(a) - Signed(b));
  }

  // ---- normalising, rounding and packing --------------------------------------------------------------

  const UNIT: int := 0x1_0000_0000   // weight of r0 in the pair r0:r2

  /** T / 2^33 rounded to an integer, ties to even. */
  function RoundedSum(T: nat): nat {
    var q, low := T / 0x2_0000_0000, T % 0x2_0000_0000;
    if low > UNIT || (low == UNIT && q % 2 == 1) then q + 1 else q
  }

  /** What is packed for the normalised sum T and exponent e. */
  function PackedSum(T: nat, e: int): int {
    if e >= 254 then E * M else if e < 0 then 0 else e * M + RoundedSum(T)
  }

  /** Negating a negative pair, `mvns` and `rsbs`: the magnitude. */
  lemma NegatePair(r0: Word, r2: Word)
    requires Signed(r0) < 0
    ensures var high := if r2 == 0 then Add(0xffff_ffff - r0, 1) else 0xffff_ffff - r0;
      high * UNIT + Sub(0, r2) == 0 - Pair(r0, r2)
  {
    if r2 > 0 {
      WrapShift(UNIT - r2, -1);
      WrapSmall(UNIT - r2);
    } else {
      AddSmall(0xffff_ffff - r0, 1);
    }
  }

  /** Doubling a pair through the carry. */
  lemma DoublePair(r0: Word, r2: Word)
    requires r0 < 0x8000_0000
    ensures Add(r0 + r0, if r2 >= 0x8000_0000 then 1 else 0) * UNIT + Add(r2, r2) == 2 * (r0 * UNIT + r2)
  {
    var carry := if r2 >= 0x8000_0000 then 1 else 0;
    if r0 < 0x7fff_ffff || carry == 0 {
      AddSmall(r0 + r0, carry);
    }
    WrapShift(2 * r2 - carry * UNIT, carry);
    WrapSmall(2 * r2 - carry * UNIT);
  }

  /** The normalisation loop: shifts the pair left until its top bit is bit 24 of r0. */
  method Normalise(r0in: Word, r2in: Word, r3in: Word) returns (r0: Word, r2: Word, r3: Word, ghost k: nat)
    requires r0in < 4 * M && r0in * UNIT + r2in > 0 && -64 < Signed(r3in) < 0x1_0000
    ensures 2 * M <= r0 < 4 * M && k < 57
    ensures r0 * UNIT + r2 == (r0in * UNIT + r2in) * Pow2(k)
    ensures Signed(r3) == Signed(r3in) - k
  {
    hide Wrap, Signed;
    r0, r2, r3, k := r0in, r2in, r3in, 0;
    ghost var S := r0in * UNIT + r2in;
    while r0 < 2 * M
      invariant r0 < 4 * M && r0 * UNIT + r2 == S * Pow2(k) && k < 57
      invariant Signed(r3) == Signed(r3in) - k
      decreases 4 * M * UNIT - (r0 * UNIT + r2)
    {
      ghost var T := r0 * UNIT + r2;
      DoublePair(r0, r2);
      var carry := if r2 >= 0x8000_0000 then 1 else 0;
      r2 := Add(r2, r2);
      r0 := Add(r0 + r0, carry);
      SignedAdd(r3, -1);
      r3 := Sub(r3, 1);
      assert T == S * Pow2(k);
      DoublePower(S, k);
      k := k + 1;
      assert r0 * UNIT + r2 == 2 * T;
      ShiftBound(S, k);
    }
  }

  lemma DoublePower(S: nat, k: nat)
    ensures S * Pow2(k + 1) == 2 * (S * Pow2(k))
  {
    MulAssoc(S, 2, Pow2(k));
    MulAssoc(2, S, Pow2(k));
  }

  /** A positive number cannot be doubled too often. */
  lemma ShiftBound(S: nat, k: nat)
    requires S > 0 && S * Pow2(k) < 4 * M * UNIT
    ensures k < 57
  {
    MulMono(Pow2(k), 1, S);
    if k >= 57 {
      PowValues();
      Pow2Add(24, 1);
      Pow2Add(25, 32);
      Pow2Mono(57, k);
    }
  }

  /** The magnitude and sign of the pair, normalised, rounded and packed with exponent r3. */
  method RoundAndPack(r0in: Word, r2in: Word, r3in: Word) returns (r: Word, ghost k: nat)
    requires Pair(r0in, r2in) != 0 && -4 * M < Signed(r0in) < 4 * M && -64 < Signed(r3in) < 0x1_0000
    ensures var T := Abs(Pair(r0in, r2in)) * Pow2(k);
      && k < 57 && 2 * M * UNIT <= T < 4 * M * UNIT
      && Magnitude(r) == PackedSum(T, Signed(r3in) - k)
    ensures Sign(r) == (if Pair(r0in, r2in) < 0 then 1 else 0)
  {
    hide Wrap, Pow2, Pair, PackedSum;
    var r0, r2, r3 := r0in, r2in, r3in;
    var r1 := Lsr(r0, 0x8000_0000);
    PairSign(r0, r2);
    if r1 != 0 {
      NegatePair(r0, r2);
      r0 := 0xffff_ffff - r0;
      r2 := Sub(0, r2);
      NegatedLow(r2in);
      if r2 == 0 { r0 := Add(r0, 1); }
    }
    assert r0 * UNIT + r2 == Abs(Pair(r0in, r2in));
    r0, r2, r3, k := Normalise(r0, r2, r3);
    ghost var T := r0 * UNIT + r2;
    r0 := Round(r0, r2);
    r := Pack(r0, r1, r3, T);
  }

  /** Rounding up on the bit shifted out, and back to even when the sticky bits are zero. */
  method Round(r0in: Word, r2: Word) returns (r0: Word)
    requires 2 * M <= r0in < 4 * M
    ensures r0 == RoundedSum(r0in * UNIT + r2) && M <= r0 <= 2 * M
  {
    hide Wrap;
    var carry := CarryLsr(r0in, 2);
    r0 := Lsr(r0in, 2);
    if carry {
      AddSmall(r0, 1);
      r0 := Add(r0, 1);
      if r2 == 0 {
        r0 := Lsr(r0, 2);
        LslSmall(r0, 2);
        r0 := Lsl(r0, 2);
      }
    }
  }

  /** Packing, or a signed zero or infinity when the exponent is out of range. */
  method Pack(r0in: Word, r1in: Word, r3in: Word, ghost T: nat) returns (r: Word)
    requires r1in < 2 && r0in == RoundedSum(T) && M <= r0in <= 2 * M
    ensures Magnitude(r) == PackedSum(T, Signed(r3in)) && Sign(r) == r1in
  {
    hide Wrap, RoundedSum;
    LslSmall(r1in, 0x8000_0000);
    LslSmall(r1in, 0x100);
    if r3in >= 254 {
      if Signed(r3in) < 254 {
        r := Lsl(r1in, 0x8000_0000);
        return;
      }
      var top := Lsl(r1in, 0x100);
      AddSmall(top, 255);
      top := Add(top, 255);
      LslSmall(top, 0x80_0000);
      r := Lsl(top, 0x80_0000);
      return;
    }
    var sign := Lsl(r1in, 0x8000_0000);
    AddSmall(r0in, sign);
    var r0 := Add(r0in, sign);
    LslSmall(r3in, 0x80_0000);
    var r3 := Lsl(r3in, 0x80_0000);
    AddSmall(r0, r3);
    r := Add(r0, r3);
  }

  lemma PairSign(r0: Word, r2: Word)
    ensures Pair(r0, r2) < 0 <==> r0 >= 0x8000_0000
    ensures r0 < 0x8000_0000 ==> Pair(r0, r2) == r0 * UNIT + r2
    ensures -4 * M < Signed(r0) < 4 * M ==> -4 * M * UNIT < Pair(r0, r2) < 4 * M * UNIT
  {
  }

  lemma NegatedLow(r2: Word)
    ensures Sub(0, r2) == 0 <==> r2 == 0
  {
    if r2 > 0 {
      WrapShift(UNIT - r2, -1);
      WrapSmall(UNIT - r2);
    }
  }

  // ---- from the pair to the rounded sum ---------------------------------------------------------------

  ghost function Sum(x: Word, y: Word): int { SignedValue(x) + SignedValue(y) }

  lemma SignedFields(x: Word)
    requires Normal(x)
    ensures SignedValue(x) == SignedSignificand(x) * Pow2(Exponent(x) - 1)
  {
    ValueFields(x);
  }

  /** The aligned sum is the exact sum. */
  lemma AlignedIsSum(x: Word, y: Word)
    requires Normal(x) && Normal(y) && -30 < Exponent(x) - Exponent(y) < 30
    ensures Sum(x, y) * UNIT == AlignedSum(x, y) * Pow2(Max(Exponent(x), Exponent(y)) - 1)
  {
    SignedFields(x);
    SignedFields(y);
    if Exponent(x) >= Exponent(y) {
      AlignedTerms(SignedSignificand(x), SignedSignificand(y), Exponent(x), Exponent(y));
    } else {
      AlignedTerms(SignedSignificand(y), SignedSignificand(x), Exponent(y), Exponent(x));
    }
  }

  lemma AlignedTerms(a: int, b: int, ea: nat, eb: nat)
    requires 1 <= eb <= ea < eb + 30
    ensures (a * Pow2(ea - 1) + b * Pow2(eb - 1)) * UNIT == (a * UNIT + b * Pow2(32 - (ea - eb))) * Pow2(ea - 1)
  {
    var d, p, q := ea - eb, Pow2(ea - 1), Pow2(eb - 1);
    assert Pow2(32 - d) * p == UNIT * q by {
      Pow2Add(32 - d, ea - 1);
      Pow2Add(32, eb - 1);
      PowValues();
    }
    hide Pow2;
    MulAssoc(b, Pow2(32 - d), p);
    Distrib(a * UNIT, b * Pow2(32 - d), p);
    MoveFactor(a, p);
    MoveFactor(b, q);
  }

  lemma MoveFactor(a: int, p: int)
    ensures a * UNIT * p == (a * p) * UNIT && a * (UNIT * p) == (a * p) * UNIT
  {
  }

  lemma RoundedSumRounds(T: nat, e: int)
    requires 2 * M * UNIT <= T < 4 * M * UNIT
    ensures var B := 2 * UNIT;
      && RoundsTo(T, B, RoundedSum(T)) && M * B <= T < 2 * M * B && M <= RoundedSum(T) <= 2 * M
      && ((e == -1 ==> T < (2 * M - 1) * B) ==> Delivered(M, E, T, B, RoundedSum(T), e + 1) == PackedSum(T, e))
  {
  }

  /** An exact pair for normal operands: what is packed is the correctly rounded sum. */
  lemma ExactPair(x: Word, y: Word, k: nat)
    requires Normal(x) && Normal(y) && -30 < Exponent(x) - Exponent(y) < 30
    requires var T := Abs(AlignedSum(x, y)) * Pow2(k); 2 * M * UNIT <= T < 4 * M * UNIT
    ensures var w := PackedSum(Abs(AlignedSum(x, y)) * Pow2(k), Max(Exponent(x), Exponent(y)) - k);
      w >= 0 && FlushedNearest(M, E, Abs(Sum(x, y)), 1, w)
  {
    AlignedIsSum(x, y);
    hide AlignedSum, PackedSum, Sum, FlushedNearest;
    AbsScaled(Sum(x, y), AlignedSum(x, y), Pow2(Max(Exponent(x), Exponent(y)) - 1));
    DeliverSum(Abs(Sum(x, y)), Abs(AlignedSum(x, y)), Max(Exponent(x), Exponent(y)), k);
  }

  lemma AbsScaled(a: int, b: int, p: nat)
    requires a * UNIT == b * p && p > 0
    ensures Abs(a) * UNIT == Abs(b) * p
    ensures (a < 0 <==> b < 0) && (a == 0 <==> b == 0)
  {
    if b > 0 { MulMono(p, 1, b); }
    if b < 0 { MulMono(p, b, -1); }
  }

  lemma DeliverSum(P: nat, S: nat, top: nat, k: nat)
    requires top >= 1 && P * UNIT == S * Pow2(top - 1) && 2 * M * UNIT <= S * Pow2(k) < 4 * M * UNIT
    ensures PackedSum(S * Pow2(k), top - k) >= 0 && FlushedNearest(M, E, P, 1, PackedSum(S * Pow2(k), top - k))
  {
    var T := S * Pow2(k);
    assert P * (2 * UNIT) * Pow2(k) == T * 1 * Pow2(top) by {
      assert P * (2 * UNIT) == S * Pow2(top) by { MulAssoc(S, 2, Pow2(top - 1)); }
      MulAssoc(S, Pow2(top), Pow2(k));
      MulAssoc(S, Pow2(k), Pow2(top));
    }
    if top - k == -1 {
      // the sum is an integer, so it cannot be within half a unit below the smallest normal
      Pow2Add(top, 1);
      MulAssoc(P * (2 * UNIT), 2, Pow2(top));
      assert P * (2 * UNIT) * Pow2(k) == (P * (2 * UNIT) * 2) * Pow2(top);
      CancelEq(Pow2(top), P * (2 * UNIT) * 2, T);
    }
    RoundedSumRounds(T, top - k);
    Deliver(M, E, P, 1, T, 2 * UNIT, RoundedSum(T), k, top);
  }

  /** An operand 30 binades below the other is less than 1/64 of its last place. */
  lemma NegligibleValue(x: Word, y: Word)
    requires Normal(x) && (Exponent(y) == 0 || (Normal(y) && Exponent(x) >= Exponent(y) + 30))
    ensures 64 * Value(y) <= Pow2(Exponent(x) - 1)
  {
    if Exponent(y) > 0 {
      ValueFields(y);
      var V := Pow2(Exponent(y) - 1);
      MulMono(V, M + Fraction(y), 0x100_0000);
      PowValues();
      Pow2Add(24, 6);
      Pow2Add(30, Exponent(y) - 1);
      Pow2Mono(30 + (Exponent(y) - 1), Exponent(x) - 1);
      assert Pow2(6) == 64;
    }
  }

  lemma NegligibleOperand(x: Word, y: Word)
    requires Normal(x) && (Exponent(y) == 0 || (Normal(y) && Exponent(x) >= Exponent(y) + 30))
    ensures FlushedNearest(M, E, Abs(Sum(x, y)), 1, Magnitude(x))
    ensures Sum(x, y) != 0 && (Sum(x, y) < 0 <==> Sign(x) == 1)
  {
    var U := Pow2(Exponent(x) - 1);
    NegligibleValue(x, y);
    ValueFields(x);
    MulMono(U, M, M + Fraction(x));
    MagnitudeFields(x);
    assert Exponent(x) == 1 ==> Exponent(y) == 0;
    hide Exponent, Fraction, Magnitude, Pow2, FlushedNearest;
    assert Exponent(y) == 0 ==> Value(y) == 0;
    NearSum(x, y);
    PerturbedWord(Exponent(x), Fraction(x), Abs(Sum(x, y)));
  }

  lemma NearSum(x: Word, y: Word)
    requires 64 * Value(y) <= Value(x) && Value(x) > 0
    ensures Value(x) - Value(y) <= Abs(Sum(x, y)) <= Value(x) + Value(y)
    ensures Sum(x, y) != 0 && (Sum(x, y) < 0 <==> Sign(x) == 1)
  {
    hide Value;
  }

  lemma MagnitudeFields(x: Word)
    ensures Magnitude(x) == Exponent(x) * M + Fraction(x)
  {
  }

  /** A value within 1/64 of the last place of a normal number rounds to it. */
  lemma PerturbedWord(e: nat, f: nat, P: nat)
    requires 1 <= e <= 254 && f < M
    requires var U := Pow2(e - 1); 64 * ((M + f) * U) - U <= 64 * P <= 64 * ((M + f) * U) + U
    requires e == 1 ==> P == (M + f) * Pow2(e - 1)
    ensures FlushedNearest(M, E, P, 1, e * M + f)
  {
    var w, U := e * M + f, Pow2(e - 1);
    assert w == (e - 1) * M + (M + f);
    MagPacked(M, e, M + f);
    SpacingAbove(M, e, M + f);
    SpacingBelow(e, f);
    assert w < E * M && (e == 1 ==> U == 1);
    hide Pow2, Mag;
    NearestByMidpoints(M, E, P, 1, w);
  }

  /** The word below a normal number is at least half a last place lower. */
  lemma SpacingBelow(e: nat, f: nat)
    requires 1 <= e <= 254 && f < M
    ensures 2 * Mag(M, e * M + f - 1) <= 2 * ((M + f) * Pow2(e - 1)) - (if e == 1 then 2 else Pow2(e - 1))
  {
    var w, U := e * M + f, Pow2(e - 1);
    if f > 0 {
      assert w - 1 == (e - 1) * M + (M + f - 1);
      MagPacked(M, e, M + f - 1);
      Distrib(M + f, 1, U);
    } else if e > 1 {
      assert w - 1 == (e - 2) * M + (2 * M - 1);
      MagPacked(M, e - 1, 2 * M - 1);
      Distrib(2 * M, 1, Pow2(e - 2));
      MulAssoc(M, 2, Pow2(e - 2));
    } else {
      assert Mag(M, w - 1) == w - 1;
    }
  }

  // ---- zeros, denormals, infinities and NaNs --------------------------------------------------------------

  /** The sign of the sum: of the exact sum, and minus for a zero sum only when both operands are negative. */
  ghost predicate NegativeSum(x: Word, y: Word) {
    Sum(x, y) < 0 || (Sum(x, y) == 0 && Sign(x) == 1 && Sign(y) == 1)
  }

  /** With infinities and NaNs: the sign of the only one, and minus for two only when both are negative. */
  predicate NegativeInfinity(x: Word, y: Word) {
    (Exponent(x) == 255 && Sign(x) == 1 && (Exponent(y) < 255 || Sign(y) == 1))
    || (Exponent(x) < 255 && Sign(y) == 1)
  }

  /** Two zeros or denormals, or two infinities or NaNs: a positive operand outweighs a negative one. */
  lemma SameClass(x: Word, y: Word)
    requires (Exponent(x) == 0 && Exponent(y) == 0) || (Exponent(x) == 255 && Exponent(y) == 255)
    ensures -30 < FieldExponent(x) - FieldExponent(y) < 30
    ensures AlignedSum(x, y) != 0 && (AlignedSum(x, y) < 0 <==> Sign(x) == 1 && Sign(y) == 1)
  {
    PowValues();
    FieldRanges(x);
    FieldRanges(y);
    assert Pow2(32) == UNIT && Pow2(31) == 0x8000_0000;
    hide Fraction, Exponent, Pow2;
  }

  lemma FieldRanges(x: Word)
    ensures Sign(x) < 2 && Exponent(x) < 256 && Fraction(x) < M
  {
  }

  /** An operand taken alone keeps its bits. */
  lemma OneOperand(f: nat, e: int, k: nat)
    requires f < M && var T := ((M + f) * UNIT) * Pow2(k); 2 * M * UNIT <= T < 4 * M * UNIT
    ensures k == 1 && PackedSum(((M + f) * UNIT) * Pow2(k), e - k) ==
      (if e >= 255 then E * M else if e < 1 then 0 else e * M + f)
  {
    assert Pow2(0) == 1 && Pow2(1) == 2 && Pow2(2) == 4;
    if k >= 2 {
      Pow2Mono(2, k);
      MulMono((M + f) * UNIT, 4, Pow2(k));
    }
    assert RoundedSum((M + f) * UNIT * 2) == M + f;
  }

  /** The magnitude word w and the sign are the right ones for x + y. */
  ghost predicate CorrectSum(x: Word, y: Word, w: int, negative: bool) {
    if Exponent(x) < 255 && Exponent(y) < 255 then
      w >= 0 && FlushedNearest(M, E, Abs(Sum(x, y)), 1, w) && (negative <==> NegativeSum(x, y))
    else w == E * M && (negative <==> NegativeInfinity(x, y))
  }

  lemma CorrectSumCommutes(x: Word, y: Word, w: int, negative: bool)
    requires CorrectSum(y, x, w, negative)
    ensures CorrectSum(x, y, w, negative)
  {
    assert Sum(x, y) == Sum(y, x);
    hide Sum, FlushedNearest, Exponent, Sign;
  }

  lemma PackedAligned(x: Word, y: Word, k: nat)
    requires -30 < FieldExponent(x) - FieldExponent(y) < 30 && AlignedSum(x, y) != 0 && k < 57
    requires 2 * M * UNIT <= Abs(AlignedSum(x, y)) * Pow2(k) < 4 * M * UNIT
    ensures CorrectSum(x, y, PackedSum(Abs(AlignedSum(x, y)) * Pow2(k), Max(FieldExponent(x), FieldExponent(y)) - k),
                       AlignedSum(x, y) < 0)
  {
    FieldRanges(x);
    FieldRanges(y);
    hide Pow2, FlushedNearest, PackedSum, Sum, AlignedSum, Exponent, Sign, Fraction;
    if Normal(x) && Normal(y) {
      ExactPair(x, y, k);
      AlignedIsSum(x, y);
      AbsScaled(Sum(x, y), AlignedSum(x, y), Pow2(Max(Exponent(x), Exponent(y)) - 1));
    } else {
      SameClass(x, y);
      ExtremeExponent(Abs(AlignedSum(x, y)) * Pow2(k), Max(FieldExponent(x), FieldExponent(y)) - k);
      if Exponent(x) == 0 { ZeroSum(x, y); }
    }
  }

  /** The larger operand alone. */
  lemma PackedAlone(x: Word, y: Word, k: nat)
    requires FieldExponent(x) >= FieldExponent(y) + 30
    requires var S := SignedSignificand(x) * UNIT; 2 * M * UNIT <= Abs(S) * Pow2(k) < 4 * M * UNIT
    ensures var S := SignedSignificand(x) * UNIT;
      CorrectSum(x, y, PackedSum(Abs(S) * Pow2(k), FieldExponent(x) - k), S < 0)
  {
    FieldRanges(x);
    FieldRanges(y);
    hide Pow2, FlushedNearest, PackedSum, Sum, Exponent, Sign, Fraction;
    assert Exponent(x) > 0 && (Exponent(x) == 255 ==> Exponent(y) < 255);
    assert Abs(SignedSignificand(x) * UNIT) == (M + Fraction(x)) * UNIT;
    OneOperand(Fraction(x), FieldExponent(x), k);
    if Normal(x) { NegligibleOperand(x, y); MagnitudeFields(x); }
  }

  /** What the routine returns for a pair that is not zero. */
  lemma PackedResult(x: Word, y: Word, k: nat)
    requires PairSum(x, y) != 0 && k < 57
    requires 2 * M * UNIT <= Abs(PairSum(x, y)) * Pow2(k) < 4 * M * UNIT
    ensures CorrectSum(x, y, PackedSum(Abs(PairSum(x, y)) * Pow2(k), Max(FieldExponent(x), FieldExponent(y)) - k),
                       PairSum(x, y) < 0)
  {
    hide Pow2, PackedSum, AlignedSum, CorrectSum, FieldExponent, SignedSignificand;
    if -30 < FieldExponent(x) - FieldExponent(y) < 30 {
      PackedAligned(x, y, k);
    } else if FieldExponent(x) >= FieldExponent(y) + 30 {
      PackedAlone(x, y, k);
    } else {
      PackedAlone(y, x, k);
      var S := PairSum(x, y);
      CorrectSumCommutes(x, y, PackedSum(Abs(S) * Pow2(k), FieldExponent(y) - k), S < 0);
    }
  }

  lemma ExtremeExponent(T: nat, e: int)
    ensures e >= 254 ==> PackedSum(T, e) == E * M
    ensures e < 0 ==> PackedSum(T, e) == 0
  {
  }

  lemma ZeroSum(x: Word, y: Word)
    requires Exponent(x) == 0 && Exponent(y) == 0
    ensures Sum(x, y) == 0 && FlushedNearest(M, E, 0, 1, 0)
  {
    NearestSmall(M, E, 0, 1, 0);
  }

  /** Only finite operands of equal magnitude cancel. */
  lemma Cancellation(x: Word, y: Word)
    requires PairSum(x, y) == 0
    ensures Exponent(x) < 255 && Exponent(y) < 255 && !NegativeSum(x, y)
    ensures FlushedNearest(M, E, Abs(Sum(x, y)), 1, 0)
  {
    var d := FieldExponent(x) - FieldExponent(y);
    assert -30 < d < 30;
    if Normal(x) && Normal(y) {
      AlignedIsSum(x, y);
      AbsScaled(Sum(x, y), AlignedSum(x, y), Pow2(Max(Exponent(x), Exponent(y)) - 1));
      NonZeroValue(x);
      NearestSmall(M, E, 0, 1, 0);
    } else {
      SameClass(x, y);
    }
  }

  lemma NonZeroValue(x: Word)
    requires Normal(x)
    ensures Value(x) > 0
  {
    ValueFields(x);
    MulMono(Pow2(Exponent(x) - 1), 1, M + Fraction(x));
  }

  // ---- the routines -------------------------------------------------------------------------------------------

  /** x + y, correctly rounded for all finite operands (denormal operands count as zero) with denormal results
      flushed to zero; a sum with infinities or NaNs is an infinity. */
  method Fadd(x: Word, y: Word) returns (r: Word)
    ensures Exponent(x) < 255 && Exponent(y) < 255 ==>
      FlushedNearest(M, E, Abs(Sum(x, y)), 1, Magnitude(r)) && (Sign(r) == 1 <==> NegativeSum(x, y))
    ensures Exponent(x) == 255 || Exponent(y) == 255 ==>
      Magnitude(r) == E * M && (Sign(r) == 1 <==> NegativeInfinity(x, y))
  {
    FieldRanges(x);
    FieldRanges(y);
    hide Wrap, Pow2, FlushedNearest, PackedSum, Sum, AlignedSum, Exponent, Fraction, PairSum;
    var r4, r2 := UnpackExponent(x);
    var r5, r3 := UnpackExponent(y);
    var r0 := UnpackSignificand(x, r4);
    var r1 := UnpackSignificand(y, r5);
    r0, r2, r3 := Align(r0, r1, r2, r3, x, y);
    if r0 == 0 && r2 == 0 {
      Cancellation(x, y);
      return r0;
    }
    ghost var k;
    r, k := RoundAndPack(r0, r2, r3);
    PackedResult(x, y, k);
  }

  /** x - y: the sign of the second operand is flipped first. A zero difference is minus zero only for a negative first
      and a positive second operand; an infinite operand decides the sign, and of two the difference is negative only
      when both pull that way. */
  method Fsub(x: Word, y: Word) returns (r: Word)
    ensures Exponent(x) < 255 && Exponent(y) < 255 ==>
      && FlushedNearest(M, E, Abs(SignedValue(x) - SignedValue(y)), 1, Magnitude(r))
      && (Sign(r) == 1 <==> SignedValue(x) < SignedValue(y)
                            || (SignedValue(x) == SignedValue(y) && Sign(x) == 1 && Sign(y) == 0))
    ensures Exponent(x) == 255 || Exponent(y) == 255 ==>
      && Magnitude(r) == E * M
      && (Sign(r) == 1 <==> if Exponent(x) == 255 then Sign(x) == 1 && (Exponent(y) < 255 || Sign(y) == 0) else Sign(y) == 0)
  {
    FlipSign(y);
    FieldRanges(x);
    FieldRanges(y);
    hide FlushedNearest, Exponent, Magnitude, Sign, SignedValue, Xor;
    var r1 := Xor(32, y, 0x8000_0000);
    r := Fadd(x, r1);
  }

  lemma FlipSign(y: Word)
    ensures var z := Xor(32, y, 0x8000_0000);
      z < 0x1_0000_0000 && SignedValue(z) == -SignedValue(y) && Exponent(z) == Exponent(y) && Sign(z) == 1 - Sign(y)
  {
    PowValues();
    XorTopBit(31, y);
    var z := if y < 0x8000_0000 then y + 0x8000_0000 else y - 0x8000_0000;
    FlippedFields(y, z);
    hide Exponent, Magnitude, Xor, Pow2;
  }

  lemma FlippedFields(y: Word, z: Word)
    requires z == y + 0x8000_0000 || y == z + 0x8000_0000
    ensures Magnitude(z) == Magnitude(y) && Sign(z) == 1 - Sign(y) && Exponent(z) == Exponent(y)
  {
    assert z / 0x80_0000 == y / 0x80_0000 + 256 || z / 0x80_0000 == y / 0x80_0000 - 256;
  }
}
