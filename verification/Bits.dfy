/** 32-bit machine words as integers, and the bitwise operations the assembly routines use.

    A shift is written with the power of two it multiplies or divides by, so that `Lsl(x, 0x80)` is a
    left shift by seven places. */
module Bits {
  const W32: int := 0x1_0000_0000

  type Word = x: int | 0 <= x < 0x1_0000_0000

  type Byte = x: int | 0 <= x < 256

  function Pow2(n: nat): (p: nat)
    ensures p > 0
  {
    if n == 0 then 1 else 2 * Pow2(n - 1)
  }

  /** The value modulo 2^32, as any register holds it. */
  function Wrap(x: int): Word {
    x % 0x1_0000_0000
  }

  function Add(x: int, y: int): Word { Wrap(x + y) }

  function Sub(x: int, y: int): Word { Wrap(x - y) }

  function Mul(x: int, y: int): Word { Wrap(x * y) }

  /** The register read as a two's complement number. */
  function Signed(x: Word): int {
    if x < 0x8000_0000 then x else x - 0x1_0000_0000
  }

  function Lsl(x: Word, scale: nat): Word {
    Wrap(x * scale)
  }

  function Lsr(x: Word, scale: nat): Word
    requires scale > 0
  {
    Floor(x, scale);
    x / scale
  }

  /** Arithmetic shift right: floor division of the signed value. */
  function Asr(x: Word, scale: nat): Word
    requires scale > 0
  {
    Wrap(Signed(x) / scale)
  }

  /** The carry flag after a right shift: the last bit shifted out. */
  predicate CarryLsr(x: Word, scale: nat)
    requires scale >= 2
  {
    (x / (scale / 2)) % 2 == 1
  }

  lemma MulMono(k: int, a: int, b: int)
    requires 0 <= k && a <= b
    ensures k * a <= k * b && a * k <= b * k
  {
  }

  lemma Floor(x: int, d: int)
    requires 0 <= x && 0 < d
    ensures 0 <= x / d <= x
  {
    var q := x / d;
    assert x == d * q + x % d;
    if q > x {
      MulMono(q, 1, d);
    }
  }

  lemma WrapSmall(x: int)
    requires 0 <= x < 0x1_0000_0000
    ensures Wrap(x) == x
  {
  }

  lemma WrapShift(x: int, k: int)
    ensures Wrap(x + 0x1_0000_0000 * k) == Wrap(x)
  {
  }

  lemma SignedWrap(x: int)
    requires -0x8000_0000 <= x < 0x8000_0000
    ensures Signed(Wrap(x)) == x
  {
  }

  lemma SignedAdd(r: Word, k: int)
    requires -0x8000_0000 <= Signed(r) + k < 0x8000_0000
    ensures Signed(Add(r, k)) == Signed(r) + k
  {
    WrapShift(Signed(r) + k, if r < 0x8000_0000 then 0 else 1);
    SignedWrap(Signed(r) + k);
  }

  lemma AddSmall(x: int, y: int)
    requires 0 <= x + y < 0x1_0000_0000
    ensures Add(x, y) == x + y
  {
  }

  lemma SubSmall(x: int, y: int)
    requires 0 <= x - y < 0x1_0000_0000
    ensures Sub(x, y) == x - y
  {
  }

  lemma LslSmall(x: Word, scale: nat)
    requires x * scale < 0x1_0000_0000
    ensures Lsl(x, scale) == x * scale
  {
    MulMono(scale, 0, x);
    WrapSmall(x * scale);
  }

  function Xor(n: nat, x: nat, y: nat): nat {
    if n == 0 then 0
    else 2 * Xor(n - 1, x / 2, y / 2) + (if x % 2 == y % 2 then 0 else 1)
  }

  function Or(n: nat, x: nat, y: nat): nat {
    if n == 0 then 0
    else 2 * Or(n - 1, x / 2, y / 2) + (if x % 2 == 1 || y % 2 == 1 then 1 else 0)
  }

  function And(n: nat, x: nat, y: nat): nat {
    if n == 0 then 0
    else 2 * And(n - 1, x / 2, y / 2) + (if x % 2 == 1 && y % 2 == 1 then 1 else 0)
  }

  lemma MulAssoc(a: int, b: int, c: int)
    ensures (a * b) * c == a * (b * c)
  {
  }

  lemma {:induction false} Pow2Add(a: nat, b: nat)
    ensures Pow2(a + b) == Pow2(a) * Pow2(b)
  {
    if a > 0 {
      Pow2Add(a - 1, b);
      MulAssoc(2, Pow2(a - 1), Pow2(b));
    }
  }

  lemma {:induction false} XorZero(n: nat, x: nat)
    requires x < Pow2(n)
    ensures Xor(n, x, 0) == x
  {
    if n > 0 { XorZero(n - 1, x / 2); }
  }

  /** Exclusive or with all ones is the complement: the negation idiom `eors` then `subs`. */
  lemma {:induction false} XorOnes(n: nat, x: nat)
    requires x < Pow2(n)
    ensures Xor(n, x, Pow2(n) - 1) == Pow2(n) - 1 - x
  {
    if n > 0 {
      var ones := Pow2(n) - 1;
      assert ones / 2 == Pow2(n - 1) - 1 && ones % 2 == 1;
      XorOnes(n - 1, x / 2);
    }
  }

  /** Exclusive or with the top bit toggles it. */
  lemma {:induction false} XorTopBit(n: nat, x: nat)
    requires x < 2 * Pow2(n)
    ensures Xor(n + 1, x, Pow2(n)) == (if x < Pow2(n) then x + Pow2(n) else x - Pow2(n))
  {
    if n > 0 { XorTopBit(n - 1, x / 2); }
  }

  /** Inserting a bit above the bits of `x`. */
  lemma {:induction false} OrBit(n: nat, k: nat, x: nat)
    requires k < n && x < Pow2(k)
    ensures Or(n, x, Pow2(k)) == x + Pow2(k)
  {
    if k == 0 {
      assert x == 0;
      OrZero(n - 1, 0);
    } else {
      assert Pow2(k) / 2 == Pow2(k - 1) && Pow2(k) % 2 == 0;
      OrBit(n - 1, k - 1, x / 2);
    }
  }

  /** Combining disjoint bit fields. */
  lemma {:induction false} OrFields(n: nat, k: nat, high: nat, low: nat)
    requires k <= n && high < Pow2(n - k) && low < Pow2(k)
    ensures Or(n, high * Pow2(k), low) == high * Pow2(k) + low
  {
    if k == 0 {
      OrZero(n, high);
    } else {
      assert high * Pow2(k) == 2 * (high * Pow2(k - 1)) by { MulAssoc(high, 2, Pow2(k - 1)); MulAssoc(2, high, Pow2(k - 1)); }
      OrFields(n - 1, k - 1, high, low / 2);
    }
  }

  lemma {:induction false} OrIsZero(n: nat, x: nat, y: nat)
    requires x < Pow2(n) && y < Pow2(n)
    ensures Or(n, x, y) == 0 <==> x == 0 && y == 0
    ensures Or(n, x, y) < Pow2(n)
  {
    if n > 0 { OrIsZero(n - 1, x / 2, y / 2); }
  }

  lemma {:induction false} OrZero(n: nat, x: nat)
    requires x < Pow2(n)
    ensures Or(n, x, 0) == x
  {
    if n > 0 { OrZero(n - 1, x / 2); }
  }

  /** Masking with 2^k - 1 keeps the remainder modulo 2^k. */
  lemma {:induction false} AndMask(n: nat, k: nat, x: nat)
    requires k <= n
    ensures And(n, x, Pow2(k) - 1) == x % Pow2(k)
  {
    if k == 0 {
      AndZero(n, x);
    } else {
      assert (Pow2(k) - 1) / 2 == Pow2(k - 1) - 1 && (Pow2(k) - 1) % 2 == 1;
      AndMask(n - 1, k - 1, x / 2);
      ModDouble(x, Pow2(k - 1));
    }
  }

  lemma {:induction false} AndZero(n: nat, x: nat)
    ensures And(n, x, 0) == 0
  {
    if n > 0 { AndZero(n - 1, x / 2); }
  }

  lemma ModDouble(x: nat, m: nat)
    requires m > 0
    ensures x % (2 * m) == 2 * ((x / 2) % m) + x % 2
  {
    var q, r := (x / 2) / m, (x / 2) % m;
    assert x / 2 == m * q + r;
    assert x == (2 * m) * q + (2 * r + x % 2) by {
      assert x == 2 * (x / 2) + x % 2;
      assert 2 * (m * q) == (2 * m) * q;
    }
    DivModUnique(x, 2 * m, q, 2 * r + x % 2);
  }

  lemma DivModUnique(x: int, d: int, q: int, r: int)
    requires 0 < d && 0 <= r < d && x == d * q + r
    ensures x / d == q && x % d == r
  {
    var q0, r0 := x / d, x % d;
    assert d * (q - q0) == r0 - r by {
      assert x == d * q0 + r0;
    }
    if q - q0 >= 1 {
      MulMono(d, 1, q - q0);
      assert false;
    }
    if q - q0 <= -1 {
      MulMono(d, q - q0, -1);
      assert false;
    }
  }

  function Shr(x: nat, k: nat): nat {
    if k == 0 then x else Shr(x / 2, k - 1)
  }

  lemma {:induction false} ShrDivides(x: nat, k: nat)
    ensures Shr(x, k) == x / Pow2(k)
  {
    if k > 0 {
      ShrDivides(x / 2, k - 1);
      DivDiv(x, 2, Pow2(k - 1));
    }
  }

  /** The high bits of an exclusive or are the exclusive or of the high bits. */
  lemma {:induction false} XorHigh(n: nat, x: nat, y: nat, k: nat)
    requires k <= n
    ensures Shr(Xor(n, x, y), k) == Xor(n - k, Shr(x, k), Shr(y, k))
  {
    if k > 0 {
      XorHigh(n - 1, x / 2, y / 2, k - 1);
      assert Xor(n, x, y) / 2 == Xor(n - 1, x / 2, y / 2);
    }
  }

  lemma DivDiv(x: nat, a: nat, b: nat)
    requires a > 0 && b > 0
    ensures a * b > 0 && x / (a * b) == (x / a) / b
  {
    var q, r := x / a, x % a;
    var q', r' := q / b, q % b;
    assert x == a * q + r && q == b * q' + r';
    assert a * q == (a * b) * q' + a * r' by {
      assert a * (b * q' + r') == a * (b * q') + a * r';
    }
    MulMono(a, r', b - 1);
    assert a * (b - 1) == a * b - a;
    MulMono(a, 0, r');
    MulMono(b, 1, a);
    DivModUnique(x, a * b, q', a * r' + r);
  }

  lemma SwapMiddle(n: nat, a: nat, d: nat, b: nat)
    ensures (n * a) * (d * b) == (n * d) * (a * b)
  {
    MulAssoc(n, a, d * b);
    MulAssoc(a, d, b);
    MulAssoc(d, a, b);
    MulAssoc(n, d, a * b);
  }

  lemma PowerProduct(n: nat, i: nat, d: nat, j: nat)
    ensures (n * Pow2(i)) * (d * Pow2(j)) == (n * d) * Pow2(i + j)
  {
    SwapMiddle(n, Pow2(i), d, Pow2(j));
    Pow2Add(i, j);
  }

  /** k * 2^i */
  function Shl(k: nat, i: nat): nat { k * Pow2(i) }

  lemma ShlShl(k: nat, i: nat, j: nat)
    ensures Shl(Shl(k, i), j) == Shl(k, i + j)
  {
    Pow2Add(i, j);
    MulAssoc(k, Pow2(i), Pow2(j));
  }

  /** Two ways of scaling by the same power of two. */
  lemma SameScale(P: nat, k: nat, i: nat, b: nat, u: nat, q: nat, v: nat)
    requires P == Shl(k, i) && i + b + u == q + v
    ensures Shl(Shl(P, b), u) == Shl(Shl(k, q), v)
  {
    hide Shl;
    ShlShl(k, i, b);
    ShlShl(k, i + b, u);
    ShlShl(k, q, v);
  }

  lemma LowBytes(addr: nat)
    ensures addr % 0x1_0000 / 0x100 == addr / 0x100 % 0x100 && addr % 0x1_0000 % 0x100 == addr % 0x100
  {
    var high, low := addr / 0x1_0000, addr % 0x1_0000;
    assert addr == 0x1_0000 * high + low;
    DivModUnique(addr, 0x100, 0x100 * high + low / 0x100, low % 0x100);
    DivModUnique(0x100 * high + low / 0x100, 0x100, high, low / 0x100);
  }
}
