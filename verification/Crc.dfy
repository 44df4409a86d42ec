/** The checksum in the boot ROM (crc32_small in bootrom_misc.S): division of the message, most significant bit
    first, by the polynomial 0x104C11DB7 over the two-element field. */
module Crc {
  import opened Bits

  // ---- exclusive or as addition of bit strings --------------------------------------------------------------

  lemma {:induction false} XorRange(n: nat, a: nat, b: nat)
    ensures Xor(n, a, b) < Pow2(n)
  {
    if n > 0 { XorRange(n - 1, a / 2, b / 2); }
  }

  lemma {:induction false} XorCommutes(n: nat, a: nat, b: nat)
    ensures Xor(n, a, b) == Xor(n, b, a)
  {
    if n > 0 { XorCommutes(n - 1, a / 2, b / 2); }
  }

  lemma {:induction false} XorAssociates(n: nat, a: nat, b: nat, c: nat)
    ensures Xor(n, Xor(n, a, b), c) == Xor(n, a, Xor(n, b, c))
  {
    if n > 0 {
      assert Xor(n, a, b) / 2 == Xor(n - 1, a / 2, b / 2) && Xor(n, b, c) / 2 == Xor(n - 1, b / 2, c / 2);
      XorAssociates(n - 1, a / 2, b / 2, c / 2);
    }
  }

  lemma {:induction false} XorSelf(n: nat, a: nat)
    ensures Xor(n, a, a) == 0
  {
    if n > 0 { XorSelf(n - 1, a / 2); }
  }

  /** Exclusive or works on high and low bits separately. */
  lemma {:induction false} XorFields(n: nat, k: nat, ah: nat, al: nat, bh: nat, bl: nat)
    requires k <= n && al < Pow2(k) && bl < Pow2(k)
    ensures Xor(n, Shl(ah, k) + al, Shl(bh, k) + bl) == Shl(Xor(n - k, ah, bh), k) + Xor(k, al, bl)
  {
    if k > 0 {
      ShlHalf(ah, k);
      ShlHalf(bh, k);
      ShlHalf(Xor(n - k, ah, bh), k);
      hide Shl, Pow2;
      var a, b := Shl(ah, k) + al, Shl(bh, k) + bl;
      assert a / 2 == Shl(ah, k - 1) + al / 2 && a % 2 == al % 2;
      assert b / 2 == Shl(bh, k - 1) + bl / 2 && b % 2 == bl % 2;
      XorFields(n - 1, k - 1, ah, al / 2, bh, bl / 2);
    }
  }

  lemma ShlHalf(a: nat, k: nat)
    requires k > 0
    ensures Shl(a, k) == 2 * Shl(a, k - 1)
  {
    MulAssoc(a, 2, Pow2(k - 1));
    MulAssoc(2, a, Pow2(k - 1));
  }

  /** (a + b) + (c + d) == (a + c) + (b + d) for exclusive or. */
  lemma XorSwap(n: nat, a: nat, b: nat, c: nat, d: nat)
    ensures Xor(n, Xor(n, a, b), Xor(n, c, d)) == Xor(n, Xor(n, a, c), Xor(n, b, d))
  {
    XorAssociates(n, a, b, Xor(n, c, d));
    XorAssociates(n, b, c, d);
    XorCommutes(n, b, c);
    XorAssociates(n, c, b, d);
    XorAssociates(n, a, c, Xor(n, b, d));
  }

  /** Exclusive or of two registers. */
  function Eor(a: Word, b: Word): Word {
    assert Xor(32, a, b) < 0x1_0000_0000 by { XorRange(32, a, b); PowerValues(); }
    Xor(32, a, b)
  }

  lemma PowerValues()
    ensures Pow2(8) == 0x100 && Pow2(24) == 0x100_0000 && Pow2(31) == 0x8000_0000 && Pow2(32) == 0x1_0000_0000
  {
    assert Pow2(8) == 0x100;
    Pow2Add(8, 8);
    Pow2Add(16, 8);
    Pow2Add(24, 7);
    assert Pow2(7) == 0x80;
  }

  // ---- division ---------------------------------------------------------------------------------------------

  const POLY: Word := 0x04c1_1db7

  /** Multiplication by x modulo the polynomial. */
  function Times(s: Word): Word {
    if s >= 0x8000_0000 then Eor(2 * (s - 0x8000_0000), POLY) else 2 * s
  }

  function TimesPower(s: Word, k: nat): Word
    decreases k
  {
    if k == 0 then s else TimesPower(Times(s), k - 1)
  }

  /** Long division, bit by bit: the next message bit enters at the bottom of the remainder. */
  function Divide(r: Word, bits: seq<bool>): Word
    decreases |bits|
  {
    if |bits| == 0 then r else Divide(Eor(Times(r), Bottom(bits[0])), bits[1..])
  }

  function Bottom(bit: bool): Word { if bit then 1 else 0 }

  function Top(bit: bool): Word { if bit then 0x8000_0000 else 0 }

  function Zeros(n: nat): seq<bool> { seq(n, i => false) }

  /** The k bits of b, most significant first. */
  function BitsOf(b: nat, k: nat): (s: seq<bool>)
    ensures |s| == k
    decreases k
  {
    if k == 0 then [] else [b / Pow2(k - 1) % 2 == 1] + BitsOf(b % Pow2(k - 1), k - 1)
  }

  function MessageBits(bytes: seq<Byte>): (s: seq<bool>)
    ensures |s| == 8 * |bytes|
  {
    if |bytes| == 0 then [] else BitsOf(bytes[0], 8) + MessageBits(bytes[1..])
  }

  /** The register form: message bits enter at the top. */
  function Feed(s: Word, bits: seq<bool>): Word
    decreases |bits|
  {
    if |bits| == 0 then s else Feed(Times(Eor(s, Top(bits[0]))), bits[1..])
  }

  /** The checksum of a message. */
  function Checksum(seed: Word, bytes: seq<Byte>): Word { Feed(seed, MessageBits(bytes)) }

  lemma TimesLinear(a: Word, b: Word)
    ensures Times(Eor(a, b)) == Eor(Times(a), Times(b))
  {
    var pa, pb := Reduction(a), Reduction(b);
    var sa, sb := 2 * (a % 0x8000_0000), 2 * (b % 0x8000_0000);
    TimesAsSum(a);
    TimesAsSum(b);
    TimesAsSum(Eor(a, b));
    XorTopBits(a, b);
    ReductionSum(a, b);
    hide Times, Reduction;
    XorSwap(32, sa, pa, sb, pb);
  }

  /** What Times adds for the bit shifted out. */
  function Reduction(a: Word): Word { if a >= 0x8000_0000 then POLY else 0 }

  lemma XorTopBits(a: Word, b: Word)
    ensures 2 * (Eor(a, b) % 0x8000_0000) == Eor(2 * (a % 0x8000_0000), 2 * (b % 0x8000_0000))
    ensures Eor(a, b) >= 0x8000_0000 <==> (a >= 0x8000_0000) != (b >= 0x8000_0000)
  {
    var ta, la, tb, lb := a / 0x8000_0000, a % 0x8000_0000, b / 0x8000_0000, b % 0x8000_0000;
    EorHalves(ta, la, tb, lb);
    OneBit(ta, tb);
    XorDouble(31, la, lb);
    hide Xor;
  }

  lemma EorHalves(ta: nat, la: nat, tb: nat, lb: nat)
    requires ta < 2 && tb < 2 && la < 0x8000_0000 && lb < 0x8000_0000
    ensures Eor(0x8000_0000 * ta + la, 0x8000_0000 * tb + lb) == 0x8000_0000 * Xor(1, ta, tb) + Xor(31, la, lb)
    ensures Xor(31, la, lb) < 0x8000_0000
  {
    PowerValues();
    hide Xor;
    XorFields(32, 31, ta, la, tb, lb);
    XorRange(31, la, lb);
  }

  lemma OneBit(a: nat, b: nat)
    requires a < 2 && b < 2
    ensures Xor(1, a, b) == (if a == b then 0 else 1)
  {
    assert Xor(0, a / 2, b / 2) == 0;
  }

  lemma XorDouble(n: nat, a: nat, b: nat)
    ensures Xor(n + 1, 2 * a, 2 * b) == 2 * Xor(n, a, b)
  {
    assert (2 * a) / 2 == a && (2 * b) / 2 == b && (2 * a) % 2 == (2 * b) % 2 == 0;
  }

  lemma ReductionSum(a: Word, b: Word)
    requires Eor(a, b) >= 0x8000_0000 <==> (a >= 0x8000_0000) != (b >= 0x8000_0000)
    ensures Reduction(Eor(a, b)) == Eor(Reduction(a), Reduction(b))
  {
    PowerValues();
    XorSelf(32, POLY);
    XorZero(32, POLY);
    XorZero(32, 0);
    XorCommutes(32, 0, POLY);
  }

  lemma TimesAsSum(a: Word)
    ensures Times(a) == Eor(2 * (a % 0x8000_0000), Reduction(a))
  {
    if a < 0x8000_0000 {
      assert a % 0x8000_0000 == a;
      PowerValues();
      XorZero(32, 2 * a);
    } else {
      assert a % 0x8000_0000 == a - 0x8000_0000;
    }
    hide Xor, Pow2;
  }

  lemma {:induction false} PowerLinear(a: Word, b: Word, k: nat)
    ensures TimesPower(Eor(a, b), k) == Eor(TimesPower(a, k), TimesPower(b, k))
    decreases k
  {
    if k > 0 {
      TimesLinear(a, b);
      PowerLinear(Times(a), Times(b), k - 1);
    }
  }

  lemma {:induction false} PowerAfter(s: Word, k: nat)
    ensures TimesPower(Times(s), k) == Times(TimesPower(s, k))
    decreases k
  {
    if k > 0 { PowerAfter(Times(s), k - 1); }
  }

  /** A number with k clear bits at the top is only shifted by k steps. */
  lemma {:induction false} PowerShifts(x: nat, k: nat)
    requires k <= 32 && x < Pow2(32 - k)
    ensures x * Pow2(k) < 0x1_0000_0000 && x < 0x1_0000_0000 && TimesPower(x, k) == x * Pow2(k)
    decreases k
  {
    PowerValues();
    if k > 0 {
      assert Pow2(32 - k) * 2 == Pow2(32 - (k - 1));
      MulMono(Pow2(k), x, Pow2(32 - k) - 1);
      Pow2Add(32 - k, k);
      SmallPower(32 - k, 31);
      PowerShifts(2 * x, k - 1);
      MulAssoc(x, 2, Pow2(k - 1));
    } else {
      assert TimesPower(x, 0) == x;
    }
  }

  lemma {:induction false} SmallPower(a: nat, b: nat)
    requires a <= b
    ensures Pow2(a) <= Pow2(b)
  {
    if a < b { SmallPower(a, b - 1); }
  }

  /** Feeding a bit at the top is feeding it at the bottom 32 steps earlier. */
  lemma TopIsBottom(bit: bool)
    ensures Times(Top(bit)) == TimesPower(Bottom(bit), 32)
  {
    PowerValues();
    assert Pow2(0) == 1;
    if bit {
      PowerShifts(1, 31);
      PowerSplit(1, 31);
    } else {
      PowerShifts(0, 32);
    }
  }

  lemma PowerSplit(s: Word, k: nat)
    ensures TimesPower(s, k + 1) == Times(TimesPower(s, k))
  {
    PowerAfter(s, k);
  }

  /** The register form computes the remainder of the message followed by 32 zero bits. */
  lemma {:induction false} FeedDivides(r: Word, bits: seq<bool>)
    ensures Feed(TimesPower(r, 32), bits) == Divide(r, bits + Zeros(32))
    decreases |bits|
  {
    hide TimesPower, Times, Eor, Top, Bottom;
    if |bits| == 0 {
      assert bits + Zeros(32) == Zeros(32);
      DivideZeros(r, 32);
    } else {
      var next := Eor(Times(r), Bottom(bits[0]));
      PowerLinear(Times(r), Bottom(bits[0]), 32);
      PowerAfter(r, 32);
      TimesLinear(TimesPower(r, 32), Top(bits[0]));
      TopIsBottom(bits[0]);
      FeedDivides(next, bits[1..]);
      assert (bits + Zeros(32))[1..] == bits[1..] + Zeros(32);
    }
  }

  lemma {:induction false} DivideZeros(r: Word, n: nat)
    ensures Divide(r, Zeros(n)) == TimesPower(r, n)
    decreases n
  {
    if n > 0 {
      assert Zeros(n)[1..] == Zeros(n - 1);
      PowerValues();
      XorZero(32, Times(r));
      DivideZeros(Times(r), n - 1);
    }
  }

  lemma {:induction false} FeedAppend(s: Word, a: seq<bool>, b: seq<bool>)
    ensures Feed(s, a + b) == Feed(Feed(s, a), b)
    decreases |a|
  {
    hide Times, Eor, Top;
    if |a| == 0 {
      assert a + b == b;
    } else {
      assert (a + b)[1..] == a[1..] + b;
      FeedAppend(Times(Eor(s, Top(a[0]))), a[1..], b);
    }
  }

  lemma {:induction false} MessageAppend(a: seq<Byte>, b: seq<Byte>)
    ensures MessageBits(a + b) == MessageBits(a) + MessageBits(b)
  {
    if |a| == 0 {
      assert a + b == b;
    } else {
      assert (a + b)[1..] == a[1..] + b;
      MessageAppend(a[1..], b);
    }
  }

  /** A message may be checked in pieces, the checksum of one being the seed of the next. */
  lemma ChecksumAppend(seed: Word, a: seq<Byte>, b: seq<Byte>)
    ensures Checksum(seed, a + b) == Checksum(Checksum(seed, a), b)
  {
    MessageAppend(a, b);
    FeedAppend(seed, MessageBits(a), MessageBits(b));
  }

  /** Starting from a sum is adding the second start, shifted by the number of bits fed. */
  lemma {:induction false} FeedLinear(a: Word, b: Word, bits: seq<bool>)
    ensures Feed(Eor(a, b), bits) == Eor(Feed(a, bits), TimesPower(b, |bits|))
    decreases |bits|
  {
    hide Times, Eor, Top;
    if |bits| > 0 {
      var top := Top(bits[0]);
      EorRotates(a, b, top);
      TimesLinear(Eor(a, top), b);
      FeedLinear(Times(Eor(a, top)), Times(b), bits[1..]);
    }
  }

  /** (a + b) + c == (a + c) + b */
  lemma EorRotates(a: Word, b: Word, c: Word)
    ensures Eor(Eor(a, b), c) == Eor(Eor(a, c), b)
  {
    XorAssociates(32, a, b, c);
    XorCommutes(32, b, c);
    XorAssociates(32, a, c, b);
  }

  /** For every seed the checksum of n bytes is the remainder of long division of the message followed by 32 zero bits
      plus the seed followed by 8n zero bits. */
  lemma ChecksumIsRemainder(seed: Word, bytes: seq<Byte>)
    ensures Checksum(seed, bytes) == Eor(Divide(0, MessageBits(bytes) + Zeros(32)), Divide(seed, Zeros(8 * |bytes|)))
  {
    var bits := MessageBits(bytes);
    PowerValues();
    PowerShifts(0, 32);
    FeedDivides(0, bits);
    DivideZeros(seed, 8 * |bytes|);
    FeedLinear(0, seed, bits);
    XorCommutes(32, 0, seed);
    XorZero(32, seed);
  }

  // ---- whole bytes --------------------------------------------------------------------------------------------

  /** Disjoint high and low bits. */
  lemma EorFields(high: nat, low: nat, k: nat)
    requires k <= 32 && high < Pow2(32 - k) && low < Pow2(k)
    ensures Shl(high, k) + low < 0x1_0000_0000 && Eor(Shl(high, k), low) == Shl(high, k) + low
  {
    PowerValues();
    XorFields(32, k, high, 0, 0, low);
    XorZero(32 - k, high);
    XorZero(k, low);
    XorCommutes(k, 0, low);
    XorRange(32, Shl(high, k), low);
  }

  /** Feeding the k bits of b is adding them at the top and taking k steps. */
  lemma {:induction false} FeedBits(s: Word, b: nat, k: nat)
    requires k <= 32 && b < Pow2(k)
    ensures Shl(b, 32 - k) < 0x1_0000_0000
    ensures Feed(s, BitsOf(b, k)) == TimesPower(Eor(s, Shl(b, 32 - k)), k)
    decreases k
  {
    PowerValues();
    ShlBound(b, k);
    if k == 0 {
      XorZero(32, s);
    } else {
      var t, rest := b / Pow2(k - 1), b % Pow2(k - 1);
      SplitBit(b, k);
      ShlHalf(rest, 32 - (k - 1));
      FeedTop(s, t, Shl(rest, 32 - k));
      FirstBit(b, k);
      hide Times, Eor, Shl, Pow2, BitsOf;
      FeedBits(Times(Eor(s, Top(t == 1))), rest, k - 1);
    }
  }

  /** One step with the bit t at the top and R below it. */
  lemma FeedTop(s: Word, t: nat, R: nat)
    requires t < 2 && R < 0x8000_0000
    ensures Shl(t, 31) + R < 0x1_0000_0000 && 2 * R < 0x1_0000_0000
    ensures Times(Eor(s, Shl(t, 31) + R)) == Eor(Times(Eor(s, Top(t == 1))), 2 * R)
  {
    PowerValues();
    assert Top(t == 1) == Shl(t, 31);
    assert Pow2(1) == 2;
    EorFields(t, R, 31);
    XorAssociates(32, s, Top(t == 1), R);
    TimesLinear(Eor(s, Top(t == 1)), R);
    assert Times(R) == 2 * R;
    hide Times, Xor;
  }

  lemma FirstBit(b: nat, k: nat)
    requires 0 < k
    ensures BitsOf(b, k)[0] == (b / Pow2(k - 1) % 2 == 1) && BitsOf(b, k)[1..] == BitsOf(b % Pow2(k - 1), k - 1)
  {
  }

  lemma ShlBound(b: nat, k: nat)
    requires k <= 32 && b < Pow2(k)
    ensures Shl(b, 32 - k) < 0x1_0000_0000
  {
    var p, q := Pow2(k), Pow2(32 - k);
    assert p * q == 0x1_0000_0000 by { Pow2Add(k, 32 - k); PowerValues(); }
    hide Pow2;
    BelowProduct(b, p, q);
  }

  lemma BelowProduct(b: nat, p: nat, q: nat)
    requires b < p && q > 0
    ensures b * q < p * q
  {
    MulMono(q, b + 1, p);
  }

  lemma SplitBit(b: nat, k: nat)
    requires 0 < k <= 32 && b < Pow2(k)
    ensures var t, rest := b / Pow2(k - 1), b % Pow2(k - 1);
      && t < 2 && t % 2 == t && rest < Pow2(k - 1)
      && Shl(b, 32 - k) == Shl(t, 31) + Shl(rest, 32 - k) && Shl(rest, 32 - k) < 0x8000_0000
  {
    var p := Pow2(k - 1);
    assert b < 2 * p;
    SplitAtBit(b, p);
    ShlSum(b / p, b % p, k - 1, 32 - k);
    ShlBound(b % p, k - 1);
    ShlHalf(b % p, 32 - (k - 1));
  }

  lemma SplitAtBit(b: nat, p: nat)
    requires p > 0 && b < 2 * p
    ensures b == p * (b / p) + b % p && b / p < 2
  {
    var q := b / p;
    if q >= 2 { MulMono(p, 2, q); }
  }

  lemma ShlSum(t: nat, rest: nat, i: nat, j: nat)
    ensures Shl(Pow2(i) * t + rest, j) == Shl(t, i + j) + Shl(rest, j)
  {
    Pow2Add(i, j);
    SplitProduct(Pow2(i), t, rest, Pow2(j));
  }

  lemma SplitProduct(p: int, t: int, rest: int, q: int)
    ensures (p * t + rest) * q == t * (p * q) + rest * q
  {
    MulAssoc(t, p, q);
  }

  /** The routine's step for one byte: only the top byte is folded, the rest is shifted and combined. */
  function FoldByte(s: Word, b: Byte): Word {
    assert Xor(8, b, s / 0x100_0000) < 0x100 by { XorRange(8, b, s / 0x100_0000); PowerValues(); }
    Eor(s % 0x100_0000 * 0x100, TimesPower(0x100_0000 * Xor(8, b, s / 0x100_0000), 8))
  }

  lemma FoldIsFeed(s: Word, b: Byte)
    ensures FoldByte(s, b) == Feed(s, BitsOf(b, 8))
  {
    PowerValues();
    var rest := s % 0x100_0000;
    var u := Xor(8, b, s / 0x100_0000);
    FeedBits(s, b, 8);
    FoldedSum(s, b);
    PowerShifts(rest, 8);
    assert Shl(u, 24) == 0x100_0000 * u;
    hide Pow2, Xor, Feed, Eor, TimesPower, Shl, BitsOf;
    PowerLinear(Shl(u, 24), rest, 8);
    EorCommutes(TimesPower(Shl(u, 24), 8), rest * 0x100);
  }

  lemma EorCommutes(a: Word, b: Word)
    ensures Eor(a, b) == Eor(b, a)
  {
    XorCommutes(32, a, b);
  }

  /** Adding a byte at the top changes only the top byte. */
  lemma FoldedSum(s: Word, b: Byte)
    ensures var u := Xor(8, b, s / 0x100_0000);
      && Shl(u, 24) < 0x1_0000_0000 && Shl(b, 24) < 0x1_0000_0000
      && Eor(s, Shl(b, 24)) == Eor(Shl(u, 24), s % 0x100_0000)
  {
    PowerValues();
    var top, rest := s / 0x100_0000, s % 0x100_0000;
    var u := Xor(8, b, top);
    XorRange(8, b, top);
    hide Pow2, Xor;
    assert s == Shl(top, 24) + rest;
    XorFields(32, 24, top, rest, b, 0);
    XorZero(24, rest);
    XorCommutes(8, top, b);
    EorFields(u, rest, 24);
  }

  /** The bytes of a word, most significant first. */
  function WordBytes(w: Word): seq<Byte> {
    [w / 0x100_0000, w / 0x1_0000 % 0x100, w / 0x100 % 0x100, w % 0x100]
  }

  /** A message followed by the bytes of its own checksum has checksum zero, for every seed. */
  lemma ChecksumOfChecksum(seed: Word, message: seq<Byte>)
    ensures Checksum(seed, message + WordBytes(Checksum(seed, message))) == 0
  {
    var c := Checksum(seed, message);
    ChecksumAppend(seed, message, WordBytes(c));
    FourBytes(c, WordBytes(c));
    hide FoldByte, Checksum;
    OwnBytesFoldAway(c);
  }

  lemma FourBytes(s: Word, b: seq<Byte>)
    requires |b| == 4
    ensures Checksum(s, b) == FoldByte(FoldByte(FoldByte(FoldByte(s, b[0]), b[1]), b[2]), b[3])
  {
    hide FoldByte, Checksum;
    NoBytes(s);
    NextByte(s, [], b[0]);
    NextByte(s, b[..1], b[1]);
    NextByte(s, b[..2], b[2]);
    NextByte(s, b[..3], b[3]);
    assert [] + [b[0]] == b[..1] && b[..1] + [b[1]] == b[..2] && b[..2] + [b[2]] == b[..3] && b[..3] + [b[3]] == b;
  }

  lemma OwnBytesFoldAway(c: Word)
    ensures var b := WordBytes(c); FoldByte(FoldByte(FoldByte(FoldByte(c, b[0]), b[1]), b[2]), b[3]) == 0
  {
    RegisterShifts(c);
    FoldOwnTop(c);
    FoldOwnTop(c % 0x100_0000 * 0x100);
    FoldOwnTop(c % 0x1_0000 * 0x1_0000);
    FoldOwnTop(c % 0x100 * 0x100_0000);
    hide FoldByte;
  }

  /** Shifting a register out byte by byte. */
  lemma RegisterShifts(c: Word)
    ensures var b, s1, s2, s3 := WordBytes(c), c % 0x100_0000 * 0x100, c % 0x1_0000 * 0x1_0000, c % 0x100 * 0x100_0000;
      && s1 < 0x1_0000_0000 && s2 < 0x1_0000_0000 && s3 < 0x1_0000_0000
      && b[1] == s1 / 0x100_0000 && s1 % 0x100_0000 * 0x100 == s2
      && b[2] == s2 / 0x100_0000 && s2 % 0x100_0000 * 0x100 == s3
      && b[3] == s3 / 0x100_0000 && s3 % 0x100_0000 == 0
  {
    var high, low := c / 0x1_0000, c % 0x1_0000;
    var a, b, d, e := high / 0x100, high % 0x100, low / 0x100, low % 0x100;
    DivModUnique(c, 0x100_0000, a, 0x1_0000 * b + low);
    DivModUnique(c, 0x100, 0x100 * high + d, e);
    DivModUnique(0x100 * high + d, 0x100, high, d);
    DivModUnique((0x1_0000 * b + low) * 0x100, 0x100_0000, b, low * 0x100);
    DivModUnique(low * 0x1_0000, 0x100_0000, d, e * 0x1_0000);
    DivModUnique(e * 0x100_0000, 0x100_0000, e, 0);
  }

  /** Folding the top byte of the register into itself leaves the other bytes, shifted. */
  lemma FoldOwnTop(s: Word)
    ensures FoldByte(s, s / 0x100_0000) == s % 0x100_0000 * 0x100
  {
    PowerValues();
    XorSelf(8, s / 0x100_0000);
    PowerShifts(0, 8);
    XorZero(32, s % 0x100_0000 * 0x100);
    XorCommutes(32, s % 0x100_0000 * 0x100, 0);
  }

  /** The byte 1 with seed zero leaves the polynomial of the CRC-32 of IEEE 802.3, section 3.2.9, below its leading term. */
  lemma ChecksumOfOne()
    ensures Checksum(0, [0x01]) == 0x04c1_1db7
  {
    PowerValues();
    assert MessageBits([0x01]) == BitsOf(1, 8) + [];
    assert BitsOf(1, 8) + [] == BitsOf(1, 8);
    FeedBits(0, 1, 8);
    XorCommutes(32, 0, 0x100_0000);
    XorZero(32, 0x100_0000);
    assert Shl(1, 24) == 0x100_0000;
    OneStep();
    PowerOfOne();
  }

  lemma OneStep()
    ensures Times(0x8000_0000) == 0x04c1_1db7
  {
    hide Xor, Pow2;
    PowerValues();
    XorCommutes(32, 0, 0x04c1_1db7);
    XorZero(32, 0x04c1_1db7);
  }

  lemma PowerOfOne()
    ensures TimesPower(0x100_0000, 8) == Times(0x8000_0000)
  {
    hide Eor;
    assert Times(0x100_0000) == 0x200_0000 && Times(0x200_0000) == 0x400_0000 && Times(0x400_0000) == 0x800_0000;
    assert Times(0x800_0000) == 0x1000_0000 && Times(0x1000_0000) == 0x2000_0000 && Times(0x2000_0000) == 0x4000_0000;
    assert Times(0x4000_0000) == 0x8000_0000;
    hide Times;
    assert TimesPower(0x100_0000, 8) == TimesPower(0x1000_0000, 4) == TimesPower(0x8000_0000, 1);
    assert TimesPower(Times(0x8000_0000), 0) == Times(0x8000_0000);
  }

  // ---- the routine ----------------------------------------------------------------------------------------------

  /** The bytes of a register in reverse order. */
  function Rev(x: Word): Word {
    x % 0x100 * 0x100_0000 + x / 0x100 % 0x100 * 0x1_0000 + x / 0x1_0000 % 0x100 * 0x100 + x / 0x100_0000
  }

  lemma TopByteFolded(b: Byte, s: Word)
    ensures Lsl(Eor(b, Rev(s)), 0x100_0000) == 0x100_0000 * Xor(8, b, s / 0x100_0000)
  {
    PowerValues();
    var top, others := s / 0x100_0000, s % 0x100 * 0x1_0000 + s / 0x100 % 0x100 * 0x100 + s / 0x1_0000 % 0x100;
    XorFields(32, 8, 0, b, others, top);
    XorRange(8, b, top);
    assert Rev(s) == Shl(others, 8) + top && Shl(0, 8) + b == b;
    var high, low := Xor(24, 0, others), Xor(8, b, top);
    assert Eor(b, Rev(s)) == 0x100 * high + low && low < 0x100;
    hide Pow2, Xor, Rev, Eor;
    ShiftedLowByte(high, low);
  }

  lemma ShiftedLowByte(high: nat, low: nat)
    requires low < 0x100 && 0x100 * high + low < 0x1_0000_0000
    ensures Lsl(0x100 * high + low, 0x100_0000) == 0x100_0000 * low
  {
    WrapShift(0x100_0000 * low, high);
    WrapSmall(0x100_0000 * low);
  }

  /** `n` bytes of the address space from `start` on, wrapping around at its end. */
  function Bytes(mem: seq<Byte>, start: Word, n: nat): (s: seq<Byte>)
    requires |mem| == 0x1_0000_0000
    ensures |s| == n
  {
    if n == 0 then [] else Bytes(mem, start, n - 1) + [mem[Add(start, n - 1)]]
  }

  /** How many bytes the signed end test lets the loop take: all or none. */
  function Taken(start: Word, length: Word): Word {
    if Signed(start) < Signed(Add(start, length)) then length else 0
  }

  /** In a buffer that does not wrap around, all bytes are taken exactly unless it reaches across address 2^31. */
  lemma TakenExact(start: Word, length: Word)
    requires start + length < 0x1_0000_0000
    ensures Taken(start, length) == length <==> length == 0 || !(start < 0x8000_0000 <= start + length)
  {
    AddSmall(start, length);
    hide Add;
  }

  /** The end test after i bytes. */
  lemma EndTest(start: Word, length: Word, i: nat)
    requires i <= Taken(start, length)
    ensures Signed(Add(start, i)) < Signed(Add(start, length)) <==> i < Taken(start, length)
    ensures Add(Add(start, i), 1) == Add(start, i + 1)
  {
    var k := (start + i) / 0x1_0000_0000;
    assert Add(start, i) == start + i - 0x1_0000_0000 * k;
    WrapShift(start + i + 1, -k);
    if Signed(start) < Signed(Add(start, length)) {
      SignedDistance(start, length);
      hide Add;
      SignedAdd(start, i);
    } else {
      assert Add(start, 0) == start;
    }
  }

  lemma SignedDistance(start: Word, length: Word)
    requires Signed(start) < Signed(Add(start, length))
    ensures Signed(Add(start, length)) == Signed(start) + length
  {
    if start + length < 0x1_0000_0000 {
      AddSmall(start, length);
    } else {
      WrapShift(start + length - 0x1_0000_0000, 1);
      WrapSmall(start + length - 0x1_0000_0000);
    }
  }

  /** crc32_small over the whole address space: the checksum of the bytes its loop takes. */
  method Crc32Small(mem: array<Byte>, r0in: Word, length: Word, seed: Word) returns (r: Word)
    requires mem.Length == 0x1_0000_0000
    ensures r == Checksum(seed, Bytes(mem[..], r0in, Taken(r0in, length)))
  {
    hide Feed, TimesPower, Times, Eor, Add, Taken;
    var r0, r1, r2 := r0in, Add(length, r0in), seed;
    ghost var i: nat := 0;
    NoBytes(seed);
    StartOfBuffer(r0in, length);
    EndTest(r0in, length, 0);
    while Signed(r0) < Signed(r1)
      invariant i <= Taken(r0in, length) && r0 == Add(r0in, i) && r1 == Add(r0in, length)
      invariant Signed(r0) < Signed(r1) <==> i < Taken(r0in, length)
      invariant r2 == Checksum(seed, Bytes(mem[..], r0in, i))
      decreases Taken(r0in, length) - i
    {
      var r4: Word := mem[r0];
      var r3 := Rev(r2);
      TopByteFolded(mem[r0], r2);
      r4 := Eor(r4, r3);
      r4 := Lsl(r4, 0x100_0000);
      r4 := EightSteps(r4);
      ghost var before := r2;
      ShiftedByte(r2);
      r2 := Lsl(r2, 0x100);
      r2 := Eor(r2, r4);
      assert r2 == FoldByte(before, mem[r0]);
      NextByte(seed, Bytes(mem[..], r0in, i), mem[r0]);
      EndTest(r0in, length, i);
      i := i + 1;
      EndTest(r0in, length, i);
      r0 := Add(r0, 1);
    }
    r := r2;
  }

  lemma StartOfBuffer(start: Word, length: Word)
    ensures Add(start, 0) == start && Add(length, start) == Add(start, length)
  {
  }

  lemma NoBytes(seed: Word)
    ensures Checksum(seed, []) == seed
  {
  }

  lemma ShiftedByte(s: Word)
    ensures Lsl(s, 0x100) == s % 0x100_0000 * 0x100
  {
    WrapShift(s % 0x100_0000 * 0x100, s / 0x100_0000);
    WrapSmall(s % 0x100_0000 * 0x100);
  }

  lemma NextByte(seed: Word, bytes: seq<Byte>, b: Byte)
    ensures Checksum(seed, bytes + [b]) == FoldByte(Checksum(seed, bytes), b)
  {
    ChecksumAppend(seed, bytes, [b]);
    assert MessageBits([b]) == BitsOf(b, 8) + [];
    assert BitsOf(b, 8) + [] == BitsOf(b, 8);
    FoldIsFeed(Checksum(seed, bytes), b);
  }

  /** The loop bit_loop. */
  method EightSteps(r4in: Word) returns (r4: Word)
    ensures r4 == TimesPower(r4in, 8)
  {
    hide Eor;
    r4 := r4in;
    var r3 := 8;
    while r3 > 0
      invariant 0 <= r3 <= 8 && TimesPower(r4, r3) == TimesPower(r4in, 8)
    {
      ghost var before := r4;
      var carry := r4 >= 0x8000_0000;
      ShiftedBit(r4);
      r4 := Lsl(r4, 2);
      if carry { r4 := Eor(r4, POLY); }
      assert r4 == Times(before);
      r3 := r3 - 1;
    }
  }

  lemma ShiftedBit(s: Word)
    ensures Lsl(s, 2) == (if s >= 0x8000_0000 then 2 * (s - 0x8000_0000) else 2 * s)
  {
  }
}
