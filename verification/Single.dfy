/** The fields of a packed single-precision number, and wrap-around facts about its registers. */
module Single {
  import opened Bits
  import opened Rounding

  const M: nat := 0x80_0000   // the implied significand bit, 2^23
  const E: nat := 255         // biased exponent of infinities

  function Sign(x: Word): (s: nat) { x / 0x8000_0000 }

  function Magnitude(x: Word): (w: nat) { x % 0x8000_0000 }

  function Exponent(x: Word): (e: nat) { (x / 0x80_0000) % 256 }

  function Fraction(x: Word): (f: nat) { x % 0x80_0000 }

  predicate Normal(x: Word) { 1 <= Exponent(x) <= 254 }

  /** The exact magnitude in units of 2^-149, with denormal operands read as zero. */
  ghost function Value(x: Word): (v: nat) {
    if Exponent(x) == 0 then 0 else Mag(M, Magnitude(x))
  }

  lemma ValueFields(x: Word)
    requires Exponent(x) >= 1
    ensures Value(x) == (M + Fraction(x)) * Pow2(Exponent(x) - 1)
  {
    MagFields(M, Exponent(x), Fraction(x));
    assert Magnitude(x) == Exponent(x) * 0x80_0000 + Fraction(x);
  }

  lemma WrapMul(x: int, y: int)
    ensures Wrap(Wrap(x) * y) == Wrap(x * y)
    ensures Wrap(y * Wrap(x)) == Wrap(x * y)
  {
    var q := x / 0x1_0000_0000;
    assert x == Wrap(x) + 0x1_0000_0000 * q;
    Distrib(Wrap(x), 0x1_0000_0000 * q, y);
    MulAssoc(0x1_0000_0000, q, y);
    WrapShift(Wrap(x) * y, q * y);
  }

  lemma WrapSub(x: int, y: int)
    ensures Wrap(Wrap(x) - Wrap(y)) == Wrap(x - y)
    ensures Wrap(Wrap(x) + Wrap(y)) == Wrap(x + y)
  {
    var p, q := x / 0x1_0000_0000, y / 0x1_0000_0000;
    WrapShift(Wrap(x) - Wrap(y), p - q);
    WrapShift(Wrap(x) + Wrap(y), p + q);
  }

  lemma {:induction false} PowValues()
    ensures Pow2(5) == 0x20 && Pow2(7) == 0x80 && Pow2(8) == 0x100
    ensures Pow2(23) == 0x80_0000 && Pow2(24) == 0x100_0000 && Pow2(31) == 0x8000_0000 && Pow2(32) == 0x1_0000_0000
  {
    assert Pow2(5) == 0x20;
    assert Pow2(10) == 0x20 * 0x20 by { Pow2Add(5, 5); }
    assert Pow2(20) == 0x10_0000 by { Pow2Add(10, 10); }
    Pow2Add(20, 3);
    Pow2Add(20, 4);
    Pow2Add(24, 7);
  }

  /** Exclusive or of two packed numbers puts the sign of a product or quotient in the top bit. */
  lemma SignXor(x: Word, y: Word)
    ensures Xor(32, x, y) / 0x8000_0000 == (Sign(x) + Sign(y)) % 2
  {
    assert Pow2(31) == 0x8000_0000 by { PowValues(); }
    ShrDivides(x, 31);
    ShrDivides(y, 31);
    ShrDivides(Xor(32, x, y), 31);
    XorHigh(32, x, y, 31);
    XorOfBits(1, Sign(x), Sign(y));
  }

  lemma XorOfBits(n: nat, s: nat, t: nat)
    requires n >= 1 && s < 2 && t < 2
    ensures Xor(n, s, t) == (s + t) % 2
  {
    XorZero(n - 1, 0);
  }

  lemma InsertImpliedOne(f: nat)
    requires f < 0x80_0000
    ensures Or(32, f, 0x80_0000) == f + 0x80_0000
  {
    PowValues();
    OrBit(32, 23, f);
  }

  lemma ExponentBits(x: Word)
    ensures Lsl(x, 2) == 0x100_0000 * Exponent(x) + 2 * Fraction(x)
    ensures Lsl(x, 2) / 0x100_0000 == Exponent(x)
  {
    var s, e, f := Sign(x), Exponent(x), Fraction(x);
    assert x == 0x8000_0000 * s + 0x80_0000 * e + f;
    WrapShift(0x100_0000 * e + 2 * f, s);
    WrapSmall(0x100_0000 * e + 2 * f);
    DivModUnique(0x100_0000 * e + 2 * f, 0x100_0000, e, 2 * f);
  }

  lemma SignedSum(a: Word, b: Word)
    requires -0x8000_0000 <= Signed(a) + Signed(b) < 0x8000_0000
    ensures Signed(Add(a, b)) == Signed(a) + Signed(b)
  {
    var k := if b < 0x8000_0000 then 0 else 1;
    WrapShift(a + Signed(b), k);
    SignedAdd(a, Signed(b));
  }
}
