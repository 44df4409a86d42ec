/** The build-time compressor and its check (generator/main.c). */
module Generator {
  import opened Bits
  import opened TextFormat

  /** The size of both static buffers. */
  const BUFFER: nat := 4096

  /** The inner loops of compress: the longest repetition at `to` of at most 127 bytes, starting at most 255 bytes
      back, furthest back first. A zero count means none of three bytes or more. */
  method FindMatch(src: array<Byte>, len: nat, to: nat) returns (count: nat, from: nat)
    requires len == src.Length && to < len
    ensures if count == 0 then NoMatch(src[..], to) else Best(src[..], to, from, count)
  {
    var matchLen := if 127 < len - to then 127 else len - to;
    ghost var text := src[..];
    while matchLen >= 3
      invariant matchLen <= 127 && to + matchLen <= len
      invariant forall f: nat, c: nat :: c > matchLen ==> !Usable(text, to, f, c)
    {
      from := if to > 255 then to - 255 else 0;
      while from < to
        invariant from <= to
        invariant forall f: nat :: f < from ==> !Usable(text, to, f, matchLen)
      {
        var same := SameBytes(src, to, from, matchLen);
        if same {
          return matchLen, from;
        }
        from := from + 1;
      }
      matchLen := matchLen - 1;
    }
    return 0, 0;
  }

  /** memcmp of two parts of the text. */
  method SameBytes(src: array<Byte>, to: nat, from: nat, count: nat) returns (same: bool)
    requires from < to && to + count <= src.Length
    ensures same == Matches(src[..], to, from, count)
  {
    var i := 0;
    while i < count && src[to + i] == src[from + i]
      invariant i <= count
      invariant src[to..to + i] == src[from..from + i]
    {
      i := i + 1;
    }
    if i < count {
      assert src[to..to + count][i] != src[from..from + count][i];
    }
    assert src[..][to..to + count] == src[to..to + count] && src[..][from..from + count] == src[from..from + count];
    return i == count;
  }

  /** decompress: zero when the buffer is full, else the number of bytes. */
  method Decompress(data: array<Byte>, dataSize: nat, buf: array<Byte>) returns (n: nat)
    requires data != buf && dataSize <= data.Length
    requires WellFormed(0, data[..dataSize]) && |Expand([], data[..dataSize])| <= buf.Length
    modifies buf
    ensures var out := Expand([], data[..dataSize]);
      buf[..|out|] == out && n == (if |out| == buf.Length then 0 else |out|)
  {
    hide WellFormed, Expand, CopyBack;
    n := 0;
    var i := 0;
    ghost var tokens := data[..dataSize];
    ghost var all := Expand([], tokens);
    assert tokens[0..] == tokens && buf[..0] == [];
    while i < dataSize && n < buf.Length
      invariant i <= dataSize && n <= buf.Length && data[..dataSize] == tokens
      invariant WellFormed(n, tokens[i..]) && Expand(buf[..n], tokens[i..]) == all
    {
      var b := data[i];
      ghost var rest := tokens[i..];
      assert rest[0] == b;
      if b < 0x80 {
        assert tokens[i + 1..] == rest[1..];
        ExpandLiteral(buf[..n], rest);
        ghost var before := buf[..n];
        buf[n] := b;
        n := n + 1;
        assert buf[..n] == before + [b];
      } else {
        var len := 0x100 - b;
        ExpandCopy(buf[..n], rest);
        i := i + 1;
        var distance := data[i];
        assert distance == rest[1] && tokens[i + 1..] == rest[2..];
        var off := n - distance;
        n := CopyWithin(buf, n, off, len, distance);
      }
      i := i + 1;
    }
    if i == dataSize { NothingLeft(buf[..n]); }
    if n == buf.Length { n := 0; }
  }

  lemma NothingLeft(out: seq<Byte>)
    ensures WellFormed(|out|, []) && Expand(out, []) == out
  {
  }

  /** The inner loop of decompress. */
  method CopyWithin(buf: array<Byte>, start: nat, from: nat, count: nat, ghost distance: nat) returns (n: nat)
    requires 0 < distance <= start && from == start - distance && start + count <= buf.Length
    modifies buf
    ensures n == start + count && buf[..n] == CopyBack(old(buf[..start]), distance, count)
  {
    n := start;
    var off, len := from, count;
    ghost var all := CopyBack(buf[..start], distance, count);
    while len > 0
      invariant n + len == start + count && off == n - distance
      invariant CopyBack(buf[..n], distance, len) == all
    {
      ghost var before := buf[..n];
      buf[n] := buf[off];
      assert buf[..n + 1] == before + [before[off]];
      n, off, len := n + 1, off + 1, len - 1;
    }
  }

  /** compress: rc is zero exactly when the text consists of bytes below 0x80 and does not fill the check buffer,
      and then buf[..n] is the greedy encoding of the text, which expands to the text again. */
  method Compress(src: array<Byte>, buf: array<Byte>, checkBuf: array<Byte>) returns (rc: nat, n: nat, cost: int)
    requires src.Length <= BUFFER && buf.Length == checkBuf.Length == BUFFER
    requires src != buf && src != checkBuf && buf != checkBuf
    modifies buf, checkBuf
    ensures n <= BUFFER
    ensures rc == 0 <==> (forall i :: 0 <= i < src.Length ==> src[i] < 0x80) && src.Length < BUFFER
    ensures rc == 0 ==> Greedy(src[..], 0, buf[..n]) && n <= src.Length && cost == n
    ensures rc == 0 ==> WellFormed(0, buf[..n]) && Expand([], buf[..n]) == src[..]
    ensures rc == 0 ==> MissesNothing(src[..], 0, buf[..n], false)
  {
    var len := src.Length;
    cost, n := len, 0;
    for i := 0 to len
      invariant forall j :: 0 <= j < i ==> src[j] < 0x80
    {
      if src[i] >= 0x80 {
        return 1, 0, cost;
      }
    }
    ghost var text := src[..];
    cost, n := Encode(src, buf, text);
    assert text[..0] == [];
    GreedyExpands(text, 0, buf[..n]);
    GreedyMissesNothing(text, 0, buf[..n]);
    var checkN := Decompress(buf, n, checkBuf);
    var same := checkN == len;
    if same { same := Equal(src, checkBuf, len); }
    rc := if same then 0 else 1;
    assert buf[..n] == buf[..n];
  }

  method Equal(a: array<Byte>, b: array<Byte>, len: nat) returns (same: bool)
    requires len <= a.Length && len <= b.Length
    ensures same == (a[..len] == b[..len])
  {
    var i := 0;
    while i < len && a[i] == b[i]
      invariant i <= len && a[..i] == b[..i]
    {
      i := i + 1;
    }
    if i < len { assert a[..len][i] != b[..len][i]; }
    return i == len;
  }

  /** The main loop of compress. */
  method Encode(src: array<Byte>, buf: array<Byte>, ghost text: seq<Byte>) returns (cost: int, n: nat)
    requires src.Length <= buf.Length && src != buf && text == src[..]
    requires forall i :: 0 <= i < |text| ==> text[i] < 0x80
    modifies buf
    ensures n <= src.Length && Greedy(text, 0, buf[..n]) && cost == n
  {
    hide Greedy, Prefix, NoMatch, Best;
    var len := src.Length;
    cost, n := len, 0;
    var to := 0;
    EmptyPrefix(text);
    assert buf[..0] == [];
    while to < len
      invariant n <= to <= len + 1 && n <= len && src[..] == text && cost == n + (len - Upto(to, len))
      invariant Prefix(text, Upto(to, len), buf[..n])
      decreases len - to
    {
      ghost var before, was := buf[..n], to;
      var count, from := FindMatch(src, len, to);
      if count > 0 { BestMatches(text, to, from, count); }
      if count > 0 {
        cost := cost + 2;
        cost := cost - count;
        buf[n] := 0x100 - count;
        n := n + 1;
        buf[n] := to - from;
        n := n + 1;
        to := to + count;
      }
      if to != len {
        buf[n] := src[to];
        n := n + 1;
      }
      to := to + 1;
      assert buf[..n] == before + Tokens(text, was, from, count);
      PrefixStep(text, was, from, count, before);
    }
    WholePrefix(text, buf[..n]);
  }

  /** What one round of the main loop emits. */
  function Tokens(text: seq<Byte>, to: nat, from: nat, count: nat): (t: seq<Byte>)
    requires to < |text| && (count > 0 ==> from < to <= from + 255 && count <= 127 && to + count <= |text|)
  {
    if count == 0 then [text[to]]
    else [0x100 - count, to - from] + (if to + count < |text| then [text[to + count]] else [])
  }

  /** Whatever is a greedy encoding of the text from `to` completes `emitted` to one of the whole text. */
  ghost predicate Prefix(text: seq<Byte>, to: nat, emitted: seq<Byte>) {
    forall rest :: Greedy(text, to, rest) ==> Greedy(text, 0, emitted + rest)
  }

  lemma EmptyPrefix(text: seq<Byte>)
    ensures Prefix(text, 0, [])
  {
    forall rest | Greedy(text, 0, rest) ensures Greedy(text, 0, [] + rest) {
      assert [] + rest == rest;
    }
  }

  lemma WholePrefix(text: seq<Byte>, emitted: seq<Byte>)
    requires Prefix(text, |text|, emitted)
    ensures Greedy(text, 0, emitted)
  {
    assert Greedy(text, |text|, []);
    assert emitted + [] == emitted;
  }

  lemma PrefixStep(text: seq<Byte>, to: nat, from: nat, count: nat, emitted: seq<Byte>)
    requires to < |text| && Prefix(text, to, emitted)
    requires if count == 0 then NoMatch(text, to) else Best(text, to, from, count)
    requires count > 0 ==> from < to <= from + 255 && count <= 127 && to + count <= |text|
    ensures Prefix(text, Upto(to + count + 1, |text|), emitted + Tokens(text, to, from, count))
  {
    var tokens := Tokens(text, to, from, count);
    forall rest | Greedy(text, Upto(to + count + 1, |text|), rest) ensures Greedy(text, 0, emitted + tokens + rest) {
      GreedyStep(text, to, from, count, rest);
      assert emitted + tokens + rest == emitted + (tokens + rest);
    }
  }

  function Upto(to: nat, len: nat): nat { if to < len then to else len }

  /** One round of the main loop emits the tokens a greedy encoding starts with. */
  lemma GreedyStep(text: seq<Byte>, to: nat, from: nat, count: nat, rest: seq<Byte>)
    requires to < |text|
    requires if count == 0 then NoMatch(text, to) else Best(text, to, from, count)
    requires count > 0 ==> from < to <= from + 255 && count <= 127 && to + count <= |text|
    requires Greedy(text, Upto(to + count + 1, |text|), rest)
    ensures Greedy(text, to, Tokens(text, to, from, count) + rest)
  {
    var data := Tokens(text, to, from, count) + rest;
    if count == 0 {
      assert data[1..] == rest;
    } else {
      assert !NoMatch(text, to) by { assert Usable(text, to, from, count); }
      hide Matches, Best, NoMatch;
      if to + count < |text| {
        assert data[3..] == rest;
      } else {
        assert data[2..] == rest;
      }
    }
  }
}
