/** Round-to-nearest, ties-to-even (section 4.3.1 of IEEE 754-2008) over exact integers.

    A binary format with p-bit significands is described by M = 2^(p-1) and by the biased exponent E of
    its infinity. A magnitude word w is a bit pattern without its sign: M times the biased exponent plus
    the fraction. Its value, counted in units of the smallest denormal, is the integer Mag(M, w); the
    infinity word E * M gets the value the next binade would start with, which makes the overflow
    threshold of the standard the ordinary midpoint below it. An exact result is the non-negative
    rational P / Q in the same units. */
module Rounding {
  import opened Bits

  /** Words below 2M (denormals and the first binade) count units; each further binade, M words on,
      doubles the value. */
  ghost function Mag(M: nat, w: nat): (v: nat)
    requires M > 0
  {
    if w < 2 * M then w else 2 * Mag(M, w - M)
  }

  /** The field reading of a word: significand times a power of two. */
  lemma {:induction false} MagFields(M: nat, q: nat, f: nat)
    requires M > 0 && q >= 1 && f <= M
    ensures Mag(M, (q - 1) * M + M + f) == (M + f) * Pow2(q - 1)
  {
    MulMono(M, 0, q - 1);
    if q > 1 {
      var w, S := (q - 1) * M + M + f, Pow2(q - 2);
      MulMono(M, 1, q - 1);
      Distrib(q - 2, 1, M);
      assert w - M == (q - 2) * M + M + f;
      MagFields(M, q - 1, f);
      assert (M + f) * (2 * S) == 2 * ((M + f) * S) by { MulAssoc(M + f, 2, S); MulAssoc(2, M + f, S); }
    }
  }

  ghost function Dist(P: int, Q: int, v: int): int {
    if P >= v * Q then P - v * Q else v * Q - P
  }

  ghost predicate AtLeastAsClose(M: nat, P: nat, Q: nat, w: nat, g: nat)
    requires M > 0
  {
    && Dist(P, Q, Mag(M, w)) <= Dist(P, Q, Mag(M, g))
    && (Dist(P, Q, Mag(M, w)) == Dist(P, Q, Mag(M, g)) && g != w ==> w % 2 == 0)
  }

  /** w is the word the standard rounds P / Q to: no word is closer, and a tie goes to the even word. */
  ghost predicate Nearest(M: nat, E: nat, P: nat, Q: nat, w: nat)
    requires M > 0
  {
    && w <= E * M
    && forall g: nat :: g <= E * M ==> AtLeastAsClose(M, P, Q, w, g)
  }

  /** r is the rounded result, with a denormal result replaced by zero. */
  ghost predicate FlushedNearest(M: nat, E: nat, P: nat, Q: nat, r: nat)
    requires M > 0
  {
    exists w: nat :: Nearest(M, E, P, Q, w) && r == (if w < M then 0 else w)
  }

  lemma {:induction false} MagStep(M: nat, w: nat)
    requires M > 0
    ensures Mag(M, w + 1) > Mag(M, w)
  {
    if w >= 2 * M { MagStep(M, w - M); }
  }

  lemma {:induction false} MagMono(M: nat, a: nat, b: nat)
    requires M > 0 && a <= b
    ensures Mag(M, a) <= Mag(M, b)
    ensures a < b ==> Mag(M, a) < Mag(M, b)
    decreases b - a
  {
    if a < b {
      MagStep(M, a);
      MagMono(M, a + 1, b);
    }
  }

  /** The rounded word is unique, so Nearest determines the result completely. */
  lemma NearestUnique(M: nat, E: nat, P: nat, Q: nat, w: nat, w': nat)
    requires M > 0 && Q > 0
    requires Nearest(M, E, P, Q, w) && Nearest(M, E, P, Q, w')
    ensures w == w'
  {
    if w < w' {
      NotBothNearest(M, E, P, Q, w, w');
    } else if w' < w {
      NotBothNearest(M, E, P, Q, w', w);
    }
  }

  lemma NotBothNearest(M: nat, E: nat, P: nat, Q: nat, w: nat, w': nat)
    requires M > 0 && Q > 0 && w < w'
    requires Nearest(M, E, P, Q, w)
    ensures !Nearest(M, E, P, Q, w')
  {
    if Nearest(M, E, P, Q, w') {
      EquallyClose(M, E, P, Q, w, w');
      MagMono(M, w, w + 1);
      MagMono(M, w + 1, w');
      StrictlyBetween(P, Q, Mag(M, w), Mag(M, w + 1), Mag(M, w'));
      NoCloserWord(M, E, P, Q, w, w + 1);
    }
  }

  lemma EquallyClose(M: nat, E: nat, P: nat, Q: nat, w: nat, w': nat)
    requires M > 0 && w < w' && Nearest(M, E, P, Q, w) && Nearest(M, E, P, Q, w')
    ensures Dist(P, Q, Mag(M, w)) == Dist(P, Q, Mag(M, w'))
    ensures w + 1 < w' <= E * M
  {
    NoCloserWord(M, E, P, Q, w, w');
    NoCloserWord(M, E, P, Q, w', w);
    assert w % 2 == 0 && w' % 2 == 0;
  }

  lemma NoCloserWord(M: nat, E: nat, P: nat, Q: nat, w: nat, g: nat)
    requires M > 0 && Nearest(M, E, P, Q, w) && g <= E * M
    ensures AtLeastAsClose(M, P, Q, w, g)
  {
  }

  lemma FlushedNearestUnique(M: nat, E: nat, P: nat, Q: nat, r: nat, r': nat)
    requires M > 0 && Q > 0
    requires FlushedNearest(M, E, P, Q, r) && FlushedNearest(M, E, P, Q, r')
    ensures r == r'
  {
    var w: nat :| Nearest(M, E, P, Q, w) && r == (if w < M then 0 else w);
    var w': nat :| Nearest(M, E, P, Q, w') && r' == (if w' < M then 0 else w');
    NearestUnique(M, E, P, Q, w, w');
  }

  /** Two equally close values have everything strictly between them closer still. */
  lemma StrictlyBetween(P: nat, Q: nat, a: nat, b: nat, c: nat)
    requires Q > 0 && a < b < c && Dist(P, Q, a) == Dist(P, Q, c)
    ensures Dist(P, Q, b) < Dist(P, Q, a)
  {
    MulStrict(Q, a, b);
    MulStrict(Q, b, c);
  }

  lemma Distrib(a: int, b: int, c: int)
    ensures (a + b) * c == a * c + b * c
    ensures (a - b) * c == a * c - b * c
  {
  }

  lemma MulStrict(Q: nat, a: int, b: int)
    requires Q > 0 && a < b
    ensures a * Q < b * Q
  {
    MulMono(Q, a + 1, b);
  }

  /** It is enough to compare with the midpoints to the two neighbouring words. */
  lemma NearestByMidpoints(M: nat, E: nat, P: nat, Q: nat, w: nat)
    requires M > 0 && Q > 0 && w <= E * M
    requires w < E * M ==> AboveOk(M, P, Q, w)
    requires w > 0 ==> BelowOk(M, P, Q, w)
    ensures Nearest(M, E, P, Q, w)
  {
    forall g: nat | g <= E * M ensures AtLeastAsClose(M, P, Q, w, g) {
      var v := Mag(M, w);
      if g > w {
        MagMono(M, w, w + 1);
        MagMono(M, w + 1, g);
        MulStrict(Q, v, Mag(M, w + 1));
        MulMono(Q, Mag(M, w + 1), Mag(M, g));
      } else if g < w {
        MagMono(M, w - 1, w);
        MagMono(M, g, w - 1);
        MulStrict(Q, Mag(M, w - 1), v);
        MulMono(Q, Mag(M, g), Mag(M, w - 1));
      }
    }
  }

  ghost predicate AboveOk(M: nat, P: nat, Q: nat, w: nat)
    requires M > 0
  {
    var mid := Mag(M, w) * Q + Mag(M, w + 1) * Q;
    2 * P < mid || (2 * P == mid && w % 2 == 0)
  }

  ghost predicate BelowOk(M: nat, P: nat, Q: nat, w: nat)
    requires M > 0 && w > 0
  {
    var mid := Mag(M, w) * Q + Mag(M, w - 1) * Q;
    2 * P > mid || (2 * P == mid && w % 2 == 0)
  }

  /** m is A / B rounded to an integer, ties to even. */
  ghost predicate RoundsTo(A: nat, B: nat, m: nat) {
    && (2 * m - 1) * B <= 2 * A <= (2 * m + 1) * B
    && ((2 * m - 1) * B == 2 * A || 2 * A == (2 * m + 1) * B ==> m % 2 == 0)
  }

  /** Comparing A / B with c is comparing k / Q with c when the two ratios are equal. */
  lemma CompareScaled(A: int, k: int, Q: nat, B: nat, c: int)
    requires Q > 0 && B > 0 && A * Q == k * B
    ensures A >= c * B <==> k >= c * Q
    ensures A <= c * B <==> k <= c * Q
  {
    assert (c * B) * Q == (c * Q) * B;
    if A > c * B {
      MulStrict(Q, c * B, A);
      CancelLt(B, c * Q, k);
    } else if A < c * B {
      MulStrict(Q, A, c * B);
      CancelLt(B, k, c * Q);
    } else {
      CancelEq(B, k, c * Q);
    }
  }

  lemma CancelLt(B: nat, x: int, y: int)
    requires B > 0 && x * B < y * B
    ensures x < y
  {
    if x >= y { MulMono(B, y, x); }
  }

  lemma CancelEq(B: nat, x: int, y: int)
    requires B > 0 && x * B == y * B
    ensures x == y
  {
    if x < y { MulStrict(B, x, y); }
    if y < x { MulStrict(B, y, x); }
  }

  /** Rounding depends only on the ratio. */
  lemma RoundsToScaled(A: nat, B: nat, P: nat, U: nat, m: nat)
    requires B > 0 && U > 0 && A * U == P * B && RoundsTo(A, B, m)
    ensures RoundsTo(P, U, m)
  {
    assert (2 * A) * U == 2 * (A * U) && (2 * P) * B == 2 * (P * B);
    CompareScaled(2 * A, 2 * P, U, B, 2 * m - 1);
    CompareScaled(2 * A, 2 * P, U, B, 2 * m + 1);
  }

  /** Packing a significand m in [M, 2M] at biased exponent e >= 1; m == 2M carries into the exponent. */
  lemma MagPacked(M: nat, e: nat, m: nat)
    requires M > 0 && e >= 1 && M <= m <= 2 * M
    ensures (e - 1) * M + m >= M && Mag(M, (e - 1) * M + m) == m * Pow2(e - 1)
  {
    MulMono(M, 0, e - 1);
    MagFields(M, e, m - M);
  }

  lemma SpacingAbove(M: nat, e: nat, m: nat)
    requires M > 0 && e >= 1 && M <= m <= 2 * M
    ensures (e - 1) * M + m + 1 >= 0 && Mag(M, (e - 1) * M + m + 1) >= m * Pow2(e - 1) + Pow2(e - 1)
  {
    var S := Pow2(e - 1);
    MulMono(M, 0, e - 1);
    Distrib(m, 1, S);
    if m < 2 * M {
      MagFields(M, e, m + 1 - M);
    } else {
      MagFields(M, e + 1, 1);
      Distrib(e - 1, 1, M);
      Distrib(2 * M, 2, S);
      MulAssoc(M + 1, 2, S);
    }
  }

  lemma PackedParity(M: nat, e: nat, m: nat)
    requires M % 2 == 0 && e >= 1
    ensures ((e - 1) * M + m) % 2 == m % 2
  {
    MulAssoc(e - 1, M / 2, 2);
    var t := (e - 1) * (M / 2);
    assert (e - 1) * M + m == t * 2 + m;
  }

  /** The normal range, with spacing U / Q between neighbouring words. */
  lemma NearestNormal(M: nat, E: nat, P: nat, Q: nat, m: nat, e: nat)
    requires M > 0 && M % 2 == 0 && Q > 0 && 1 <= e
    requires M <= m <= 2 * M && RoundsTo(P, Pow2(e - 1) * Q, m)
    requires M * (Pow2(e - 1) * Q) <= P
    requires 0 <= (e - 1) * M + m <= E * M
    ensures Nearest(M, E, P, Q, (e - 1) * M + m)
  {
    var w, S := (e - 1) * M + m, Pow2(e - 1);
    var U := S * Q;
    MagPacked(M, e, m);
    PackedParity(M, e, m);
    MulAssoc(m, S, Q);
    assert Mag(M, w) * Q == m * U;
    Distrib(2 * m, 1, U);
    MulAssoc(2, m, U);
    SpacingAbove(M, e, m);
    NextValue(M, w, m, S, Q);
    if w > 0 {
      if m == M {
        MagMono(M, w - 1, w);
        MulStrict(Q, Mag(M, w - 1), Mag(M, w));
      } else {
        MagPacked(M, e, m - 1);
        MulAssoc(m - 1, S, Q);
        Distrib(m, 1, U);
      }
    }
    NearestByMidpoints(M, E, P, Q, w);
  }

  lemma NextValue(M: nat, w: nat, m: nat, S: nat, Q: nat)
    requires M > 0 && Mag(M, w + 1) >= m * S + S
    ensures Mag(M, w + 1) * Q >= m * (S * Q) + S * Q
  {
    MulMono(Q, m * S + S, Mag(M, w + 1));
    Distrib(m, 1, S * Q);
    MulAssoc(m + 1, S, Q);
    Distrib(m, 1, S);
  }

  /** Beyond the largest finite binade everything rounds to infinity. */
  lemma NearestInfinity(M: nat, E: nat, P: nat, Q: nat)
    requires M > 0 && Q > 0 && E >= 1 && P >= Mag(M, E * M) * Q
    ensures Nearest(M, E, P, Q, E * M)
  {
    var w := E * M;
    MulMono(M, 1, E);
    MagMono(M, w - 1, w);
    MulStrict(Q, Mag(M, w - 1), Mag(M, w));
    NearestByMidpoints(M, E, P, Q, w);
  }

  /** Below 2^p units the words count single units, so a rounded integer is the nearest word. */
  lemma NearestSmall(M: nat, E: nat, P: nat, Q: nat, w: nat)
    requires M > 0 && Q > 0 && E >= 2 && w <= M && RoundsTo(P, Q, w)
    ensures Nearest(M, E, P, Q, w)
  {
    MulMono(M, 2, E);
    assert Mag(M, w) == w && Mag(M, w + 1) == w + 1;
    Distrib(w, 1, Q);
    MulAssoc(2, w, Q);
    Distrib(2 * w, 1, Q);
    NearestByMidpoints(M, E, P, Q, w);
  }

  lemma RoundedIntegerExists(P: nat, Q: nat) returns (w: nat)
    requires Q > 0
    ensures RoundsTo(P, Q, w)
  {
    var q, r := P / Q, P % Q;
    QuotientProducts(P, Q, q, r);
    w := if 2 * r > Q || (2 * r == Q && q % 2 == 1) then q + 1 else q;
  }

  lemma QuotientProducts(P: nat, Q: nat, q: nat, r: nat)
    requires Q > 0 && q == P / Q && r == P % Q
    ensures 0 <= r < Q
    ensures (2 * q - 1) * Q == 2 * P - 2 * r - Q
    ensures (2 * q + 1) * Q == 2 * P - 2 * r + Q
    ensures (2 * (q + 1) - 1) * Q == 2 * P - 2 * r + Q
    ensures (2 * (q + 1) + 1) * Q == 2 * P - 2 * r + 3 * Q
  {
    assert P == Q * q + r;
    MulAssoc(2, q, Q);
    Distrib(2 * q, 1, Q);
    Distrib(2 * q, 3, Q);
    assert 2 * (q + 1) - 1 == 2 * q + 1 && 2 * (q + 1) + 1 == 2 * q + 3;
  }

  /** What a routine must return for the result A / B * 2^(e-1) whose significand A / B is in [M, 2M) and
      rounds to m: infinity, the packed word, zero, or the smallest normal for a result within half a
      unit below it. */
  function Delivered(M: nat, E: nat, A: nat, B: nat, m: nat, e: int): (r: int) {
    if e >= E then E * M
    else if e >= 1 then (e - 1) * M + m
    else if e == 0 && A >= (2 * M - 1) * B then M
    else 0
  }

  lemma {:induction false} Pow2Mono(a: nat, b: nat)
    requires a <= b
    ensures Pow2(a) <= Pow2(b)
  {
    if a < b { Pow2Mono(a, b - 1); }
  }

  lemma CancelPow(x: nat, y: nat, u: nat, v: nat)
    requires u <= v && x * Pow2(u) == y * Pow2(v)
    ensures x == y * Pow2(v - u)
  {
    Pow2Add(v - u, u);
    assert y * Pow2(v) == (y * Pow2(v - u)) * Pow2(u);
    CancelEq(Pow2(u), x, y * Pow2(v - u));
  }

  /** The one fact each routine has to establish about its significand gives the whole result. */
  lemma Deliver(M: nat, E: nat, P: nat, Q: nat, A: nat, B: nat, m: nat, u: nat, v: nat)
    requires M >= 2 && M % 2 == 0 && E >= 2 && Q > 0 && B > 0
    requires P * B * Pow2(u) == A * Q * Pow2(v)
    requires M * B <= A < 2 * M * B && M <= m <= 2 * M && RoundsTo(A, B, m)
    ensures var r := Delivered(M, E, A, B, m, v - u + 1); r >= 0 && FlushedNearest(M, E, P, Q, r)
  {
    var e := v - u + 1;
    if e >= 1 {
      CancelPow(P * B, A * Q, u, v);
      DeliverLarge(M, E, P, Q, A, B, m, e);
    } else {
      CancelPow(A * Q, P * B, v, u);
      DeliverSmall(M, E, P, Q, A, B, m, 1 - e);
    }
  }

  lemma DeliverLarge(M: nat, E: nat, P: nat, Q: nat, A: nat, B: nat, m: nat, e: nat)
    requires M >= 2 && M % 2 == 0 && E >= 2 && Q > 0 && B > 0 && e >= 1
    requires P * B == A * Q * Pow2(e - 1)
    requires M * B <= A && M <= m <= 2 * M && RoundsTo(A, B, m)
    ensures var r := Delivered(M, E, A, B, m, e); r >= 0 && FlushedNearest(M, E, P, Q, r)
  {
    var U := Pow2(e - 1) * Q;
    MulMono(Q, 1, Pow2(e - 1));
    assert A * U == P * B by { MulAssoc(A, Q, Pow2(e - 1)); }
    CompareScaled(A, P, U, B, M);
    if e >= E {
      InfiniteMag(M, E, P, Q, e);
      NearestInfinity(M, E, P, Q);
      MulMono(M, 1, E);
    } else {
      assert (e - 1) * M + m <= E * M by {
        MulMono(M, e + 1, E);
        Distrib(e - 1, 2, M);
      }
      RoundsToScaled(A, B, P, U, m);
      MagPacked(M, e, m);
      NearestNormal(M, E, P, Q, m, e);
    }
  }

  lemma InfiniteMag(M: nat, E: nat, P: nat, Q: nat, e: nat)
    requires M > 0 && 1 <= E <= e && M * (Pow2(e - 1) * Q) <= P
    ensures P >= Mag(M, E * M) * Q
  {
    MagPacked(M, E, M);
    Distrib(E - 1, 1, M);
    Pow2Mono(E - 1, e - 1);
    MulMono(Q, Pow2(E - 1), Pow2(e - 1));
    MulMono(M, Pow2(E - 1) * Q, Pow2(e - 1) * Q);
    MulAssoc(M, Pow2(E - 1), Q);
  }

  /** Results below the smallest normal: only those within half a denormal unit of it round up to it. */
  lemma DeliverSmall(M: nat, E: nat, P: nat, Q: nat, A: nat, B: nat, m: nat, d: nat)
    requires M >= 2 && M % 2 == 0 && E >= 2 && Q > 0 && B > 0 && d >= 1
    requires A * Q == P * B * Pow2(d) && A < 2 * M * B
    ensures var r := Delivered(M, E, A, B, m, 1 - d); r >= 0 && FlushedNearest(M, E, P, Q, r)
  {
    var k := P * Pow2(d);
    assert A * Q == k * B by {
      MulAssoc(P, B, Pow2(d));
      MulAssoc(P, Pow2(d), B);
    }
    CompareScaled(A, k, Q, B, 2 * M);
    CompareScaled(A, k, Q, B, 2 * M - 1);
    var w := RoundedIntegerExists(P, Q);
    SmallWord(M, P, Q, w, d);
    NearestSmall(M, E, P, Q, w);
    assert Pow2(1) == 2 * Pow2(0);
    HalfUnit(M, P, Q, w);
  }

  lemma SmallWord(M: nat, P: nat, Q: nat, w: nat, d: nat)
    requires M >= 2 && Q > 0 && d >= 1 && P * Pow2(d) < 2 * M * Q && RoundsTo(P, Q, w)
    ensures w <= M
    ensures d >= 2 ==> w < M
  {
    assert Pow2(1) == 2 * Pow2(0) && Pow2(2) == 2 * Pow2(1);
    Pow2Mono(1, d);
    MulMono(P, 2, Pow2(d));
    if w >= M + 1 {
      MulMono(Q, 2 * M + 1, 2 * w - 1);
      Distrib(2 * M, 1, Q);
    }
    if d >= 2 && w == M {
      Pow2Mono(2, d);
      MulMono(P, 4, Pow2(d));
      Distrib(2 * M, 1, Q);
      MulMono(Q, 2, M);
      MulAssoc(2, M, Q);
    }
  }

  lemma HalfUnit(M: nat, P: nat, Q: nat, w: nat)
    requires M % 2 == 0 && M > 0 && Q > 0 && w <= M && RoundsTo(P, Q, w)
    ensures w == M <==> 2 * P >= (2 * M - 1) * Q
  {
    if w < M {
      MulMono(Q, 2 * w + 1, 2 * M - 1);
      if w + 1 < M {
        MulStrict(Q, 2 * w + 1, 2 * M - 1);
      }
    }
  }
}
