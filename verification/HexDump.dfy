/** The hex dump of memory: 64 characters for 16 bytes (hex and xxd in virtual_disk.c). */
module HexDump {
  import opened Bits

  const SPACE: Byte := 0x20
  const NEWLINE: Byte := 0x0a

  function HexDigit(n: nat): Byte
    requires n < 16
  {
    if n < 10 then 0x30 + n else 0x61 + n - 10
  }

  /** The last `count` hexadecimal digits of a number. */
  function Hex(word: nat, count: nat): (s: seq<Byte>)
    ensures |s| == count
  {
    if count == 0 then [] else Hex(word / 16, count - 1) + [HexDigit(word % 16)]
  }

  /** Two digits and two digits and a space for every two bytes. */
  function Words(bytes: seq<Byte>): (s: seq<Byte>)
    ensures |s| == 5 * (|bytes| / 2)
  {
    assert |bytes| >= 2 ==> (|bytes| - 2) / 2 == |bytes| / 2 - 1;
    if |bytes| < 2 then [] else Hex(bytes[0], 2) + Hex(bytes[1], 2) + [SPACE] + Words(bytes[2..])
  }

  function PrintableByte(c: Byte): Byte { if 0x20 <= c <= 0x7e then c else 0x2e }

  function Printable(bytes: seq<Byte>): (s: seq<Byte>)
    ensures |s| == |bytes|
  {
    seq(|bytes|, i requires 0 <= i < |bytes| => PrintableByte(bytes[i]))
  }

  /** The line for 16 bytes. */
  function Line(addr: nat, bytes: seq<Byte>): (s: seq<Byte>)
    requires |bytes| == 16
    ensures |s| == 64
  {
    Hex(addr, 5) + [SPACE] + Words(bytes) + [SPACE] + Printable(bytes) + [NEWLINE]
  }

  /** The dump of a memory area of whole lines. */
  function Dump(addr: nat, mem: seq<Byte>): (s: seq<Byte>)
    requires |mem| % 16 == 0
    ensures |s| == 4 * |mem|
    decreases |mem|
  {
    if |mem| == 0 then [] else Line(addr, mem[..16]) + Dump(addr + 16, mem[16..])
  }

  lemma {:induction false} DumpAppend(addr: nat, a: seq<Byte>, b: seq<Byte>)
    requires |a| % 16 == 0 && |b| % 16 == 0
    ensures Dump(addr, a + b) == Dump(addr, a) + Dump(addr + |a|, b)
    decreases |a|
  {
    hide Line;
    if |a| == 0 {
      assert a + b == b;
    } else {
      assert (a + b)[..16] == a[..16] && (a + b)[16..] == a[16..] + b;
      DumpAppend(addr + 16, a[16..], b);
    }
  }

  /** The k-th line of a dump. */
  lemma DumpLine(addr: nat, mem: seq<Byte>, k: nat)
    requires |mem| % 16 == 0 && 16 * k < |mem|
    ensures Dump(addr, mem)[64 * k..64 * k + 64] == Line(addr + 16 * k, mem[16 * k..16 * k + 16])
  {
    var before, line, after := mem[..16 * k], mem[16 * k..16 * k + 16], mem[16 * k + 16..];
    assert mem == before + (line + after);
    DumpAppend(addr, before, line + after);
    var rest := Dump(addr + 16 * k, line + after);
    assert (line + after)[..16] == line;
    assert rest[..64] == Line(addr + 16 * k, line);
    assert (Dump(addr, before) + rest)[64 * k..64 * k + 64] == rest[..64];
  }

  // ---- reading a dump back ---------------------------------------------------------------------------------

  function DigitValue(c: Byte): nat { if 0x30 <= c <= 0x39 then c - 0x30 else if 0x61 <= c <= 0x66 then c - 0x61 + 10 else 0 }

  function HexValue(digits: seq<Byte>): nat {
    if |digits| == 0 then 0 else 16 * HexValue(digits[..|digits| - 1]) + DigitValue(digits[|digits| - 1])
  }

  lemma HexByte(b: Byte)
    ensures HexValue(Hex(b, 2)) == b
  {
    var s := Hex(b, 2);
    assert Hex(b / 16, 1) == Hex(b / 16 / 16, 0) + [HexDigit(b / 16 % 16)];
    assert s == [HexDigit(b / 16), HexDigit(b % 16)];
    assert s[..1] == [HexDigit(b / 16)] && s[..1][..0] == [];
    assert HexValue(s[..1]) == b / 16;
  }

  /** The bytes named by the hexadecimal columns of a line. */
  function WordsValue(columns: seq<Byte>): seq<nat> {
    if |columns| < 5 then []
    else [HexValue(columns[..2]), HexValue(columns[2..4])] + WordsValue(columns[5..])
  }

  function LineValue(line: seq<Byte>): seq<nat>
    requires |line| == 64
  {
    WordsValue(line[6..46])
  }

  function DumpValue(text: seq<Byte>): seq<nat> {
    if |text| < 64 then [] else LineValue(text[..64]) + DumpValue(text[64..])
  }

  lemma {:induction false} WordsRoundTrip(bytes: seq<Byte>)
    requires |bytes| % 2 == 0
    ensures WordsValue(Words(bytes)) == bytes
  {
    if |bytes| >= 2 {
      var s := Words(bytes);
      HexByte(bytes[0]);
      HexByte(bytes[1]);
      assert s[..2] == Hex(bytes[0], 2) && s[2..4] == Hex(bytes[1], 2) && s[5..] == Words(bytes[2..]);
      WordsRoundTrip(bytes[2..]);
      assert bytes == [bytes[0], bytes[1]] + bytes[2..];
    }
  }

  lemma LineRoundTrip(addr: nat, bytes: seq<Byte>)
    requires |bytes| == 16
    ensures LineValue(Line(addr, bytes)) == bytes
  {
    assert Line(addr, bytes)[6..46] == Words(bytes);
    WordsRoundTrip(bytes);
  }

  /** The bytes of a text. */
  function Ascii(s: string): (b: seq<Byte>)
    ensures |b| == |s|
  {
    seq(|s|, i requires 0 <= i < |s| => s[i] as int % 0x100)
  }

  /** A line of 64 characters sets off its columns and ends with each byte as a character, a dot if it is not printable. */
  predicate PrintsAs(bytes: seq<Byte>, line: seq<Byte>) {
    && |bytes| == 16 && |line| == 64 && line[5] == line[46] == Ascii(" ")[0] && line[63] == Ascii("\n")[0]
    && forall j :: 0 <= j < 16 ==>
         line[47 + j] == if Ascii(" ")[0] <= bytes[j] <= Ascii("~")[0] then bytes[j] else Ascii(".")[0]
  }

  lemma LineColumns(addr: nat, bytes: seq<Byte>)
    requires |bytes| == 16
    ensures HexValue(Line(addr, bytes)[..5]) == addr % 0x10_0000 && PrintsAs(bytes, Line(addr, bytes))
  {
    var line, printable := Line(addr, bytes), Printable(bytes);
    assert line[..5] == Hex(addr, 5) && line[47..63] == printable;
    HexDigits(addr, 5);
    PowersOf16();
    assert forall j :: 0 <= j < 16 ==> line[47 + j] == line[47..63][j] == PrintableByte(bytes[j]);
  }

  /** Every line of the text shows 16 bytes: the last five digits of their address, and the bytes as characters. */
  predicate LinesShow(addr: nat, mem: seq<Byte>, text: seq<Byte>) {
    && |mem| % 16 == 0 && |text| == 4 * |mem|
    && forall k :: 0 <= k < |mem| / 16 ==> LineShows((addr + 16 * k) % 0x10_0000, mem[16 * k..16 * k + 16], text[64 * k..64 * k + 64])
  }

  predicate LineShows(digits: nat, bytes: seq<Byte>, line: seq<Byte>) {
    |line| == 64 && HexValue(line[..5]) == digits && PrintsAs(bytes, line)
  }

  lemma DumpShows(addr: nat, mem: seq<Byte>)
    requires |mem| % 16 == 0
    ensures LinesShow(addr, mem, Dump(addr, mem))
  {
    hide Dump, HexValue, PrintsAs, Line;
    var text := Dump(addr, mem);
    forall k | 0 <= k < |mem| / 16
      ensures LineShows((addr + 16 * k) % 0x10_0000, mem[16 * k..16 * k + 16], text[64 * k..64 * k + 64])
    {
      DumpLine(addr, mem, k);
      LineColumns(addr + 16 * k, mem[16 * k..16 * k + 16]);
    }
  }

  lemma PowersOf16()
    ensures Pow2(20) == 0x10_0000
  {
    assert Pow2(10) == 0x400;
    Pow2Add(10, 10);
  }

  /** The last digits of a number give its remainder. */
  lemma {:induction false} HexDigits(word: nat, count: nat)
    ensures HexValue(Hex(word, count)) == word % Pow2(4 * count)
    decreases count
  {
    if count > 0 {
      var s := Hex(word, count);
      assert s[..count - 1] == Hex(word / 16, count - 1);
      HexDigits(word / 16, count - 1);
      Pow2Add(4 * (count - 1), 4);
      assert Pow2(4) == 16;
      DigitRemainder(word, Pow2(4 * (count - 1)));
    }
  }

  lemma DigitRemainder(word: nat, p: nat)
    requires p > 0
    ensures 16 * (word / 16 % p) + word % 16 == word % (p * 16)
  {
    var rest := word / 16;
    var q := rest / p;
    assert rest == p * q + rest % p;
    assert word == (p * 16) * q + (16 * (rest % p) + word % 16);
    DivModUnique(word, p * 16, q, 16 * (rest % p) + word % 16);
  }

  /** The digits are those of everyday use. */
  lemma DigitCharacters(n: nat)
    requires n < 16
    ensures HexDigit(n) == Ascii("0123456789abcdef")[n]
  {
  }

  /** The hexadecimal columns of a dump give back the memory. */
  lemma {:induction false} DumpRoundTrip(addr: nat, mem: seq<Byte>)
    requires |mem| % 16 == 0
    ensures DumpValue(Dump(addr, mem)) == mem
    decreases |mem|
  {
    if |mem| > 0 {
      LineRoundTrip(addr, mem[..16]);
      DumpRoundTrip(addr + 16, mem[16..]);
      var s := Dump(addr, mem);
      assert s[..64] == Line(addr, mem[..16]) && s[64..] == Dump(addr + 16, mem[16..]);
      assert mem == mem[..16] + mem[16..];
    }
  }

  // ---- the routines ------------------------------------------------------------------------------------------

  /** A buffer with `text` written over it at `at`. */
  function Over(s: seq<Byte>, at: nat, text: seq<Byte>): (r: seq<Byte>)
    requires at + |text| <= |s|
    ensures |r| == |s|
  {
    s[..at] + text + s[at + |text|..]
  }

  /** Writing on where the last text ended. */
  lemma OverAppend(s: seq<Byte>, at: nat, text: seq<Byte>, more: seq<Byte>)
    requires at + |text| + |more| <= |s|
    ensures Over(Over(s, at, text), at + |text|, more) == Over(s, at, text + more)
  {
  }

  method PutByte(buf: array<Byte>, at: nat, b: Byte)
    requires at < buf.Length
    modifies buf
    ensures buf[..] == Over(old(buf[..]), at, [b])
  {
    buf[at] := b;
  }

  /** A word without its last k digits. */
  function Shifted(word: Word, k: nat): (r: Word)
  {
    Floor(word, Pow2(4 * k));
    word / Pow2(4 * k)
  }

  /** hex: the last `nibbles` digits of a word. */
  method PutHex(buf: array<Byte>, at: nat, word: Word, nibbles: nat)
    requires nibbles <= 8 && at + nibbles <= buf.Length
    modifies buf
    ensures buf[..] == Over(old(buf[..]), at, Hex(word, nibbles))
  {
    hide Over, Shifted;
    ghost var was := buf[..];
    NothingOver(was, at);
    var hexit := 8 - nibbles;
    while hexit < 8
      invariant 8 - nibbles <= hexit <= 8
      invariant buf[..] == Over(was, at, Hex(Shifted(word, 8 - hexit), hexit - (8 - nibbles)))
    {
      var offset := hexit - (8 - nibbles);
      Nibble(word, 7 - hexit);
      var nibble := And(32, Lsr(word, Pow2(4 * (7 - hexit))), 0xf);
      if nibble < 10 {
        PutByte(buf, at + offset, 0x30 + nibble);
      } else {
        PutByte(buf, at + offset, 0x61 + nibble - 10);
      }
      OverAppend(was, at, Hex(Shifted(word, 8 - hexit), offset), [HexDigit(nibble)]);
      hexit := hexit + 1;
    }
    NotShifted(word);
  }

  lemma NothingOver(s: seq<Byte>, at: nat)
    requires at <= |s|
    ensures Over(s, at, []) == s
  {
  }

  lemma NotShifted(word: Word)
    ensures Shifted(word, 0) == word
  {
  }

  /** One digit of a word, and the digits before it. */
  lemma Nibble(word: Word, k: nat)
    requires k < 8
    ensures Lsr(word, Pow2(4 * k)) == Shifted(word, k) && And(32, Shifted(word, k), 0xf) == Shifted(word, k) % 16
    ensures Shifted(word, k) / 16 == Shifted(word, k + 1)
  {
    assert Pow2(4) == 16;
    AndMask(32, 4, Shifted(word, k));
    Pow2Add(4 * k, 4);
    hide Pow2;
    DivDiv(word, Pow2(4 * k), 16);
  }

  lemma {:induction false} WordsAppend(bytes: seq<Byte>, a: Byte, b: Byte)
    requires |bytes| % 2 == 0
    ensures Words(bytes + [a, b]) == Words(bytes) + (Hex(a, 2) + Hex(b, 2) + [SPACE])
  {
    hide Hex;
    var group, longer := Hex(a, 2) + Hex(b, 2) + [SPACE], bytes + [a, b];
    if |bytes| == 0 {
      assert longer == [a, b] && longer[2..] == [];
      assert group + [] == group && [] + group == group;
    } else {
      var first, rest := Hex(bytes[0], 2) + Hex(bytes[1], 2) + [SPACE], bytes[2..];
      assert longer[2..] == rest + [a, b];
      WordsAppend(rest, a, b);
      assert first + (Words(rest) + group) == (first + Words(rest)) + group;
    }
  }

  /** The hexadecimal columns of one line. */
  method PutWords(buf: array<Byte>, bufOffset: nat, mem: array<Byte>, memOffset: nat)
    requires buf != mem && bufOffset + 64 <= buf.Length && memOffset + 16 <= mem.Length
    modifies buf
    ensures buf[..] == Over(old(buf[..]), bufOffset + 6, Words(mem[memOffset..memOffset + 16]))
  {
    hide Words, Hex, Over;
    ghost var was, bytes := buf[..], mem[memOffset..memOffset + 16];
    NoWords(was, bufOffset + 6);
    assert bytes[..0] == [];
    for hword := 0 to 8
      invariant buf[..] == Over(was, bufOffset + 6, Words(bytes[..2 * hword]))
      invariant mem[memOffset..memOffset + 16] == bytes
    {
      ghost var text := Words(bytes[..2 * hword]);
      var bufOffsetH, memOffsetH := bufOffset + 5 * hword, memOffset + 2 * hword;
      PutHex(buf, bufOffsetH + 0x06, mem[memOffsetH + 0], 2);
      PutHex(buf, bufOffsetH + 0x08, mem[memOffsetH + 1], 2);
      PutByte(buf, bufOffsetH + 0x0a, SPACE);
      ghost var a, b := Hex(bytes[2 * hword], 2), Hex(bytes[2 * hword + 1], 2);
      OverAppend(was, bufOffset + 6, text, a);
      OverAppend(was, bufOffset + 6, text + a, b);
      OverAppend(was, bufOffset + 6, text + a + b, [SPACE]);
      WordsAppend(bytes[..2 * hword], bytes[2 * hword], bytes[2 * hword + 1]);
      assert bytes[..2 * (hword + 1)] == bytes[..2 * hword] + [bytes[2 * hword], bytes[2 * hword + 1]];
      assert text + a + b + [SPACE] == text + (a + b + [SPACE]);
    }
    assert bytes[..16] == bytes;
  }

  lemma NoWords(s: seq<Byte>, at: nat)
    requires at <= |s|
    ensures Words([]) == [] && Over(s, at, []) == s
  {
  }

  /** The printable characters of one line. */
  method PutPrintable(buf: array<Byte>, bufOffset: nat, mem: array<Byte>, memOffset: nat)
    requires buf != mem && bufOffset + 64 <= buf.Length && memOffset + 16 <= mem.Length
    modifies buf
    ensures buf[..] == Over(old(buf[..]), bufOffset + 0x2f, Printable(mem[memOffset..memOffset + 16]))
  {
    hide Over, Printable;
    ghost var was := buf[..];
    NothingOver(was, bufOffset + 0x2f);
    NothingPrintable();
    assert mem[memOffset..memOffset] == [];
    for b := 0 to 16
      invariant buf[..] == Over(was, bufOffset + 0x2f, Printable(mem[memOffset..memOffset + b]))
    {
      ghost var bytes := mem[memOffset..memOffset + b];
      var c := mem[memOffset + b];
      PutByte(buf, bufOffset + b + 0x2f, if 0x20 <= c && c <= 0x7e then c else 0x2e);
      OverAppend(was, bufOffset + 0x2f, Printable(bytes), [PrintableByte(c)]);
      PrintableAppend(bytes, c);
      assert mem[memOffset..memOffset + b + 1] == bytes + [c];
    }
  }

  lemma NothingPrintable()
    ensures Printable([]) == []
  {
  }

  lemma PrintableAppend(bytes: seq<Byte>, c: Byte)
    ensures Printable(bytes + [c]) == Printable(bytes) + [PrintableByte(c)]
  {
  }

  /** xxd: eight lines for the 128 bytes of memory at `start`, whose address is `addr`. */
  method Xxd(buf: array<Byte>, mem: array<Byte>, start: nat, addr: Word)
    requires buf != mem && buf.Length == 512 && start + 128 <= mem.Length && addr + 128 < 0x1_0000_0000
    modifies buf
    ensures buf[..] == Dump(addr, mem[start..start + 128])
  {
    hide Dump, Line, Over;
    ghost var bytes, was := mem[start..start + 128], buf[..];
    assert bytes[..0] == [];
    EmptyDump(was, addr);
    for line := 0 to 8
      invariant buf[..] == Over(was, 0, Dump(addr, bytes[..16 * line])) && mem[start..start + 128] == bytes
    {
      ghost var text, part := Dump(addr, bytes[..16 * line]), bytes[16 * line..16 * line + 16];
      var memOffset := start + 16 * line;
      assert mem[memOffset..memOffset + 16] == part;
      PutLine(buf, 64 * line, mem, memOffset, addr + 16 * line);
      OverAppend(was, 0, text, Line(addr + 16 * line, part));
      DumpNext(addr, bytes[..16 * line], part);
      assert bytes[..16 * (line + 1)] == bytes[..16 * line] + part;
      assert mem[start..start + 128] == bytes;
    }
    WholeDump(was, Dump(addr, bytes));
    assert bytes[..128] == bytes;
  }

  lemma EmptyDump(s: seq<Byte>, addr: nat)
    ensures Dump(addr, []) == [] && Over(s, 0, []) == s
  {
  }

  lemma WholeDump(s: seq<Byte>, text: seq<Byte>)
    requires |text| == |s|
    ensures Over(s, 0, text) == text
  {
  }

  lemma DumpNext(addr: nat, bytes: seq<Byte>, part: seq<Byte>)
    requires |bytes| % 16 == 0 && |part| == 16
    ensures Dump(addr, bytes + part) == Dump(addr, bytes) + Line(addr + |bytes|, part)
  {
    DumpAppend(addr, bytes, part);
    assert part[..16] == part && part[16..] == [];
    assert Dump(addr + |bytes|, part) == Line(addr + |bytes|, part) + [];
  }

  /** One round of xxd. */
  method PutLine(buf: array<Byte>, bufOffset: nat, mem: array<Byte>, memOffset: nat, addr: Word)
    requires buf != mem && bufOffset + 64 <= buf.Length && memOffset + 16 <= mem.Length
    modifies buf
    ensures buf[..] == Over(old(buf[..]), bufOffset, Line(addr, mem[memOffset..memOffset + 16]))
  {
    hide Over, Words, Printable, Hex;
    ghost var was, bytes := buf[..], mem[memOffset..memOffset + 16];
    ghost var a, w, p := Hex(addr, 5), Words(bytes), Printable(bytes);
    PutHex(buf, bufOffset + 0x00, addr, 5);
    PutByte(buf, bufOffset + 0x05, SPACE);
    OverAppend(was, bufOffset, a, [SPACE]);
    PutWords(buf, bufOffset, mem, memOffset);
    OverAppend(was, bufOffset, a + [SPACE], w);
    PutByte(buf, bufOffset + 0x2e, SPACE);
    OverAppend(was, bufOffset, a + [SPACE] + w, [SPACE]);
    PutPrintable(buf, bufOffset, mem, memOffset);
    OverAppend(was, bufOffset, a + [SPACE] + w + [SPACE], p);
    PutByte(buf, bufOffset + 0x3f, NEWLINE);
    OverAppend(was, bufOffset, a + [SPACE] + w + [SPACE] + p, [NEWLINE]);
  }
}
