/** The decoder on the device (poor_mans_text_decompress in bootrom_misc.S), register by register over a 32-bit
    address space. */
module DeviceDecoder {
  import opened Bits
  import opened TextFormat
  import Generator

  /** All of memory, one byte an address. */
  predicate Memory(mem: array<Byte>) { mem.Length == 0x1_0000_0000 }

  /** The carry an addition leaves. */
  predicate CarryAdd(x: Word, y: Word) { x + y >= 0x1_0000_0000 }

  /** x - y - 1 when the carry is clear, x - y when it is set. */
  function Sbc(x: Word, y: Word, carry: bool): Word {
    Sub(x, y + (if carry then 0 else 1))
  }

  /** Sign extension of a byte. */
  function Sxtb(b: Byte): Word { if b < 0x80 then b else Add(b, 0xffff_ff00) }

  /** The input, ending at address `end`, and the output area, starting at `dst`, do not overlap. */
  predicate Placed(end: nat, size: nat, dst: nat, room: nat) {
    && size <= end && dst + room < 0x1_0000_0000
    && (dst + room <= end - size || end <= dst)
  }

  /** An index register that runs from minus the number of bytes left up to zero. */
  function Minus(left: nat): Word { Wrap(0 - left) }

  lemma IndexRegister(left: nat, base: Word)
    requires 0 < left <= base
    ensures Add(base, Minus(left)) == base - left && Add(Minus(left), 1) == Minus(left - 1)
    ensures CarryAdd(Minus(left), 1) <==> left == 1
    ensures Minus(left - 1) == 0 <==> left == 1
  {
    hide Wrap;
    WrapShift(0 - left, 1);
    WrapSmall(0x1_0000_0000 - left);
    WrapShift(base - left, 1);
    WrapSmall(base - left);
    WrapShift(1 - left, 1);
    WrapSmall(if left == 1 then 0 else 0x1_0000_0000 - (left - 1));
  }

  /** The copy loop at label 2: r4 is `distance` below r2, the end of the copy, and r5 runs up to zero. */
  method Copy(mem: array<Byte>, r4: Word, r2: Word, r5in: Word, ghost dst: Word, ghost n: nat, ghost count: nat,
              ghost distance: nat)
    requires Memory(mem) && 0 < distance <= n && 0 < count && dst + n + count < 0x1_0000_0000
    requires r2 == dst + n + count && r4 == r2 - distance && r5in == Minus(count)
    modifies mem
    ensures mem[dst..r2] == CopyBack(old(mem[dst..dst + n]), distance, count)
    ensures mem[..dst] == old(mem[..dst]) && mem[r2..] == old(mem[r2..])
  {
    hide Wrap, CarryAdd, Minus;
    var r5 := r5in;
    ghost var left := count;
    ghost var all := CopyBack(mem[dst..dst + n], distance, count);
    while true
      invariant 0 < left <= count && r5 == Minus(left)
      invariant CopyBack(mem[dst..r2 - left], distance, left) == all
      invariant mem[..dst] == old(mem[..dst]) && mem[r2..] == old(mem[r2..])
      decreases left
    {
      IndexRegister(left, r4);
      IndexRegister(left, r2);
      ghost var before := mem[dst..r2 - left];
      var r3 := mem[Add(r4, r5)];
      assert r3 == before[|before| - distance];
      mem[Add(r2, r5)] := r3;
      assert mem[dst..r2 - left + 1] == before + [r3];
      r5 := Add(r5, 1);
      left := left - 1;
      if r5 == 0 { break; }
    }
  }

  /** A byte's top bit, shifted out by `lsr #8`, and `sbc r5,r5`: minus one for a literal, zero for a copy. */
  lemma TokenKind(b: Byte, r5: Word)
    ensures CarryLsr(b, 0x100) <==> b >= 0x80
    ensures Sbc(r5, r5, CarryLsr(b, 0x100)) == (if b >= 0x80 then 0 else 0xffff_ffff)
  {
  }

  /** The length byte as an index register, and the end of the copy: with the carry clear, `sbc r2,r5` takes back
      the one added to r2 before. */
  lemma CopyEnd(b: Byte, r2: Word)
    requires b >= 0x80 && r2 + 0x100 - b <= 0x1_0000_0000 && r2 > 0
    ensures Sxtb(b) == Minus(0x100 - b) && Sbc(r2, Sxtb(b), false) == r2 - 1 + 0x100 - b
  {
    var count := 0x100 - b;
    WrapShift(0 - count, 1);
    WrapShift(r2 - 1 + count, -1);
  }

  /** The tokens of a well-formed input, one at a time. */
  lemma NextToken(out: seq<Byte>, data: seq<Byte>)
    requires |data| > 0 && WellFormed(|out|, data)
    ensures data[0] >= 0x80 ==> |data| >= 2 && 0 < data[1] <= |out| && |out| + 0x100 - data[0] <= |Expand(out, data)|
    ensures data[0] < 0x80 ==> |out| + 1 <= |Expand(out, data)|
  {
  }

  /** What is left of the input and what is in memory after some tokens. */
  ghost predicate Decoding(mem: seq<Byte>, start: nat, dst: nat, n: nat, data: seq<Byte>, left: nat, all: seq<Byte>, was: seq<Byte>) {
    && |mem| == |was| == 0x1_0000_0000 && left <= |data| && start + |data| < |mem| && dst + n <= dst + |all| < |mem|
    && mem[start..start + |data|] == data
    && mem[..dst] == was[..dst] && mem[dst + |all|..] == was[dst + |all|..]
    && WellFormed(n, data[|data| - left..]) && Expand(mem[dst..dst + n], data[|data| - left..]) == all
  }

  lemma StartDecoding(mem: seq<Byte>, start: nat, dst: nat, data: seq<Byte>)
    requires |mem| == 0x1_0000_0000 && start + |data| < |mem| && data == mem[start..start + |data|]
    requires WellFormed(0, data) && dst + |Expand([], data)| < |mem|
    ensures Decoding(mem, start, dst, 0, data, |data|, Expand([], data), mem)
  {
    assert data[|data| - |data|..] == data && mem[dst..dst] == [];
  }

  /** What the decoder may rely on at a token. */
  lemma DecodingBasics(mem: seq<Byte>, start: nat, dst: nat, n: nat, data: seq<Byte>, left: nat, all: seq<Byte>, was: seq<Byte>)
    requires Decoding(mem, start, dst, n, data, left, all, was)
    ensures |mem| == |was| == 0x1_0000_0000 && left <= |data| && start + |data| < |mem| && dst + n <= dst + |all| < |mem|
    ensures left > 0 ==> var rest := data[|data| - left..];
      && rest[0] == mem[start + |data| - left]
      && (rest[0] < 0x80 ==> n + 1 <= |all|)
      && (rest[0] >= 0x80 ==> |rest| >= 2 && rest[1] == mem[start + |data| - left + 1] && 0 < rest[1] <= n && n + 0x100 - rest[0] <= |all|)
    ensures left == 0 ==> n == |all| && mem[dst..dst + n] == all
    ensures mem[..dst] == was[..dst] && mem[dst + |all|..] == was[dst + |all|..]
  {
    if left > 0 {
      NextToken(mem[dst..dst + n], data[|data| - left..]);
      assert mem[start..start + |data|][|data| - left] == data[|data| - left];
      if left > 1 { assert mem[start..start + |data|][|data| - left + 1] == data[|data| - left + 1]; }
    }
  }

  /** A literal moves from the input to the output. */
  lemma LiteralStep(mem: seq<Byte>, mem': seq<Byte>, start: nat, dst: nat, n: nat, data: seq<Byte>, left: nat, all: seq<Byte>,
                    was: seq<Byte>)
    requires Decoding(mem, start, dst, n, data, left, all, was) && 0 < left && data[|data| - left] < 0x80
    requires Placed(start + |data|, |data|, dst, |all|)
    requires mem' == mem[dst + n := data[|data| - left]]
    ensures Decoding(mem', start, dst, n + 1, data, left - 1, all, was)
  {
    var rest := data[|data| - left..];
    NextToken(mem[dst..dst + n], rest);
    assert mem'[dst..dst + n + 1] == mem[dst..dst + n] + [rest[0]];
    assert data[|data| - (left - 1)..] == rest[1..];
    assert mem'[..dst] == mem[..dst] && mem'[dst + |all|..] == mem[dst + |all|..];
    assert mem'[start..start + |data|] == mem[start..start + |data|];
  }

  /** A copy within the output. */
  lemma CopyStep(mem: seq<Byte>, mem': seq<Byte>, start: nat, dst: nat, n: nat, data: seq<Byte>, left: nat, all: seq<Byte>,
                 was: seq<Byte>)
    requires Decoding(mem, start, dst, n, data, left, all, was) && 0 < left && data[|data| - left] >= 0x80
    requires Placed(start + |data|, |data|, dst, |all|) && |mem'| == |mem|
    requires left >= 2 && 0 < data[|data| - left + 1] <= n
    requires var next := dst + n + 0x100 - data[|data| - left];
      && next <= |mem| && mem'[..dst] == mem[..dst] && mem'[next..] == mem[next..]
      && mem'[dst..next] == CopyBack(mem[dst..dst + n], data[|data| - left + 1], 0x100 - data[|data| - left])
    ensures Decoding(mem', start, dst, n + 0x100 - data[|data| - left], data, left - 2, all, was)
  {
    var rest := data[|data| - left..];
    var next := dst + n + 0x100 - rest[0];
    NextToken(mem[dst..dst + n], rest);
    CopyExpands(mem[dst..dst + n], rest);
    assert data[|data| - (left - 2)..] == rest[2..];
    hide CopyBack, Expand, WellFormed;
    SameRest(mem, mem', next, dst + |all|);
    if start + |data| <= dst {
      SameHead(mem, mem', dst, start, start + |data|);
    } else {
      SameTail(mem, mem', next, start, start + |data|);
    }
  }

  lemma CopyExpands(out: seq<Byte>, data: seq<Byte>)
    requires |data| >= 2 && data[0] >= 0x80 && WellFormed(|out|, data)
    ensures var copied := CopyBack(out, data[1], 0x100 - data[0]);
      WellFormed(|copied|, data[2..]) && Expand(out, data) == Expand(copied, data[2..])
  {
  }

  lemma SameRest(s: seq<Byte>, t: seq<Byte>, k: nat, i: nat)
    requires |s| == |t| && k <= i <= |s| && s[k..] == t[k..]
    ensures s[i..] == t[i..]
  {
    SameTail(s, t, k, i, |s|);
    assert s[i..|s|] == s[i..] && t[i..|t|] == t[i..];
  }

  lemma SameTail(s: seq<Byte>, t: seq<Byte>, k: nat, i: nat, j: nat)
    requires |s| == |t| && k <= i <= j <= |s| && s[k..] == t[k..]
    ensures s[i..j] == t[i..j]
  {
    var u := s[k..];
    forall m | 0 <= m < j - i ensures s[i..j][m] == t[i..j][m] {
      assert s[i + m] == u[i - k + m] == t[k..][i - k + m];
    }
  }

  lemma SameHead(s: seq<Byte>, t: seq<Byte>, k: nat, i: nat, j: nat)
    requires |s| == |t| && i <= j <= k <= |s| && s[..k] == t[..k]
    ensures s[i..j] == t[i..j]
  {
    var u := s[..k];
    forall m | 0 <= m < j - i ensures s[i..j][m] == t[i..j][m] {
      assert s[i + m] == u[i + m] == t[..k][i + m];
    }
  }

  lemma LiteralAddress(r2: Word)
    requires 0 < r2
    ensures Add(r2, 0xffff_ffff) == r2 - 1
  {
    WrapShift(r2 - 1, 1);
  }

  /** A copy token whose first byte is r3in; r2in already counts one byte. */
  method CopyToken(mem: array<Byte>, r0: Word, r1in: Word, r2in: Word, r3in: Byte, ghost start: nat, ghost dst: Word,
                   ghost n: nat, ghost data: seq<Byte>, ghost left: nat, ghost all: seq<Byte>, ghost was: seq<Byte>)
    returns (r1: Word, r2: Word)
    requires Memory(mem) && Decoding(mem[..], start, dst, n, data, left, all, was) && start + |data| == r0
    requires 0 < left && r3in == data[|data| - left] >= 0x80 && Placed(r0, |data|, dst, |all|)
    requires r1in == Minus(left) && r2in == dst + n + 1
    modifies mem
    ensures left >= 2 && r1 == Minus(left - 1) && r2 == dst + n + 0x100 - r3in
    ensures Decoding(mem[..], start, dst, n + 0x100 - r3in, data, left - 2, all, was)
  {
    hide Wrap, CarryAdd, Sbc, Sxtb, CarryLsr, CopyBack, Decoding, Minus;
    ghost var before := mem[..];
    DecodingBasics(before, start, dst, n, data, left, all, was);
    CopyEnd(r3in, r2in);
    var r5 := Sxtb(r3in);
    IndexRegister(left, r0);
    var carry := CarryAdd(r1in, 1);
    r1 := Add(r1in, 1);
    assert !carry;
    IndexRegister(left - 1, r0);
    var r4 := mem[Add(r0, r1)];
    ghost var distance := r4;
    r2 := Sbc(r2in, r5, carry);
    SubSmall(r2, r4);
    r4 := Sub(r2, r4);
    Copy(mem, r4, r2, r5, dst, n, 0x100 - r3in, distance);
    CopyStep(before, mem[..], start, dst, n, data, left, all, was);
  }

  /** The store at label 3 for a literal: r5 is minus one. */
  method StoreLiteral(mem: array<Byte>, r2: Word, r5: Word, r3: Byte, ghost start: nat, ghost dst: nat, ghost n: nat,
                      ghost data: seq<Byte>, ghost left: nat, ghost all: seq<Byte>, ghost was: seq<Byte>)
    requires Memory(mem) && Decoding(mem[..], start, dst, n, data, left, all, was)
    requires 0 < left && r3 == data[|data| - left] < 0x80 && Placed(start + |data|, |data|, dst, |all|)
    requires r2 == dst + n + 1 && r5 == 0xffff_ffff
    modifies mem
    ensures Decoding(mem[..], start, dst, n + 1, data, left - 1, all, was)
  {
    hide Wrap, Decoding;
    ghost var before := mem[..];
    LiteralAddress(r2);
    mem[Add(r2, r5)] := r3;
    assert mem[..] == before[dst + n := r3];
    LiteralStep(before, mem[..], start, dst, n, data, left, all, was);
  }

  /** One round of the main loop: a token. `left` bytes of input are left, `n` bytes are written. */
  method DecodeToken(mem: array<Byte>, r0: Word, r1in: Word, r2in: Word, r5in: Word, ghost start: nat, ghost dst: Word,
                     ghost n: nat, ghost data: seq<Byte>, ghost left: nat, ghost all: seq<Byte>, ghost was: seq<Byte>)
    returns (r1: Word, r2: Word, r5: Word, ghost n': nat, ghost left': nat)
    requires Memory(mem) && Decoding(mem[..], start, dst, n, data, left, all, was) && start + |data| == r0
    requires 0 < left && Placed(r0, |data|, dst, |all|) && r1in == Minus(left) && r2in == dst + n
    modifies mem
    ensures left' < left && r1 == Minus(left') && r2 == dst + n' && (r1 == 0 <==> left' == 0)
    ensures Decoding(mem[..], start, dst, n', data, left', all, was)
  {
    hide Wrap, CarryAdd, Sbc, Sxtb, CarryLsr, CopyBack, Decoding, Minus;
    r1, r2, r5 := r1in, r2in, r5in;
    DecodingBasics(mem[..], start, dst, n, data, left, all, was);
    IndexRegister(left, r0);
    var r3 := mem[Add(r0, r1)];
    AddSmall(r2, 1);
    r2 := Add(r2, 1);
    TokenKind(r3, r5);
    r5 := Sbc(r5, r5, CarryLsr(r3, 0x100));
    if r5 == 0 {
      r1, r2 := CopyToken(mem, r0, r1, r2, r3, start, dst, n, data, left, all, was);
      n', left' := n + 0x100 - r3, left - 2;
    } else {
      StoreLiteral(mem, r2, r5, r3, start, dst, n, data, left, all, was);
      n', left' := n + 1, left - 1;
      r5 := 0;
    }
    IndexRegister(left' + 1, r0);
    r1 := Add(r1, 1);
  }

  /** poor_mans_text_decompress: r0 is the end of the input, r1 its length, r2 the start of the output. */
  method Decompress(mem: array<Byte>, r0: Word, size: Word, dst: Word) returns (r2: Word)
    requires Memory(mem) && 0 < size <= r0
    requires var data := mem[r0 - size..r0]; WellFormed(0, data) && Placed(r0, size, dst, |Expand([], data)|)
    modifies mem
    ensures var data := old(mem[r0 - size..r0]); var out := Expand([], data);
      && r2 == dst + |out| && mem[dst..r2] == out
      && mem[..dst] == old(mem[..dst]) && mem[r2..] == old(mem[dst + |out|..])
  {
    hide Wrap, Decoding, Expand, WellFormed;
    r2 := dst;
    var r1 := Sub(0, size);
    var r5: Word := *;
    ghost var start := r0 - size;
    ghost var data, left: nat, n: nat := mem[start..r0], size, 0;
    ghost var all, was := Expand([], data), mem[..];
    StartDecoding(was, start, dst, data);
    assert r1 == Minus(left);
    hide Minus;
    while true
      invariant 0 < left <= size && r1 == Minus(left) && r2 == dst + n
      invariant Decoding(mem[..], start, dst, n, data, left, all, was)
      decreases left
    {
      r1, r2, r5, n, left := DecodeToken(mem, r0, r1, r2, r5, start, dst, n, data, left, all, was);
      if r1 == 0 { break; }
    }
    DecodingBasics(mem[..], start, dst, n, data, left, all, was);
  }

  /** A text compressed at build time and placed anywhere in memory is decoded on the device to itself. */
  method BuildAndDecode(src: array<Byte>, buf: array<Byte>, checkBuf: array<Byte>, mem: array<Byte>, start: Word, dst: Word)
    returns (rc: nat, ghost packed: nat)
    requires src.Length <= Generator.BUFFER && buf.Length == checkBuf.Length == Generator.BUFFER && Memory(mem)
    requires src != buf && src != checkBuf && buf != checkBuf && mem != src && mem != buf && mem != checkBuf
    requires 0 < src.Length && start + Generator.BUFFER < 0x1_0000_0000 && dst + src.Length < 0x1_0000_0000
    requires dst + src.Length <= start || start + Generator.BUFFER <= dst
    modifies buf, checkBuf, mem
    ensures rc == 0 ==> mem[dst..dst + src.Length] == src[..] && packed <= src.Length
  {
    var n, cost;
    rc, n, cost := Generator.Compress(src, buf, checkBuf);
    packed := n;
    if rc == 0 { PlaceAndDecode(buf, n, mem, start, dst); }
  }

  /** The compressed data goes into memory and is decoded there. */
  method PlaceAndDecode(buf: array<Byte>, n: nat, mem: array<Byte>, start: Word, dst: Word)
    requires Memory(mem) && mem != buf && n <= buf.Length && start + n < 0x1_0000_0000
    requires WellFormed(0, buf[..n]) && |Expand([], buf[..n])| > 0
    requires Placed(start + n, n, dst, |Expand([], buf[..n])|)
    modifies mem
    ensures mem[dst..dst + |Expand([], buf[..n])|] == Expand([], buf[..n])
  {
    hide Expand, WellFormed;
    NotEmpty(buf[..n]);
    Place(mem, start, buf, n);
    assert mem[start + n - n..start + n] == buf[..n];
    var end := Decompress(mem, start + n, n, dst);
  }

  lemma NotEmpty(data: seq<Byte>)
    requires WellFormed(0, data)
    ensures |Expand([], data)| > 0 ==> |data| > 0
  {
  }

  method Place(mem: array<Byte>, start: nat, buf: array<Byte>, n: nat)
    requires n <= buf.Length && start + n <= mem.Length && mem != buf
    modifies mem
    ensures mem[start..start + n] == buf[..n]
  {
    for i := 0 to n
      invariant mem[start..start + i] == buf[..i]
    {
      mem[start + i] := buf[i];
    }
  }
}
