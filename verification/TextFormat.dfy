/** The compressed text format: a byte below 0x80 stands for itself; a byte b of 0x80 or more is followed by a
    distance and repeats 0x100 - b bytes from that far back, possibly overlapping what it writes. */
module TextFormat {
  import opened Bits

  /** `count` bytes appended, each a copy of the byte `distance` before it. */
  function CopyBack(out: seq<Byte>, distance: nat, count: nat): (r: seq<Byte>)
    requires 0 < distance <= |out|
    ensures |r| == |out| + count && r[..|out|] == out
    decreases count
  {
    if count == 0 then out else
      var r := CopyBack(out + [out[|out| - distance]], distance, count - 1);
      assert r[..|out|] == r[..|out| + 1][..|out|];
      r
  }

  /** Complete tokens whose back-references stay within what has been written. */
  predicate WellFormed(written: nat, data: seq<Byte>)
    decreases |data|
  {
    if |data| == 0 then true
    else if data[0] < 0x80 then WellFormed(written + 1, data[1..])
    else |data| >= 2 && 0 < data[1] <= written && WellFormed(written + 0x100 - data[0], data[2..])
  }

  /** What `data` stands for, after `out`. */
  function Expand(out: seq<Byte>, data: seq<Byte>): (r: seq<Byte>)
    requires WellFormed(|out|, data)
    ensures |out| <= |r| && r[..|out|] == out
    decreases |data|
  {
    if |data| == 0 then out
    else if data[0] < 0x80 then
      var r := Expand(out + [data[0]], data[1..]);
      assert r[..|out|] == r[..|out| + 1][..|out|];
      r
    else
      var copied := CopyBack(out, data[1], 0x100 - data[0]);
      var r := Expand(copied, data[2..]);
      assert r[..|out|] == r[..|copied|][..|out|];
      r
  }

  lemma ExpandLiteral(out: seq<Byte>, data: seq<Byte>)
    requires WellFormed(|out|, data) && |data| > 0 && data[0] < 0x80
    ensures WellFormed(|out| + 1, data[1..]) && Expand(out, data) == Expand(out + [data[0]], data[1..])
  {
  }

  lemma ExpandCopy(out: seq<Byte>, data: seq<Byte>)
    requires WellFormed(|out|, data) && |data| > 0 && data[0] >= 0x80
    ensures |data| >= 2 && 0 < data[1] <= |out| && WellFormed(|out| + 0x100 - data[0], data[2..])
    ensures Expand(out, data) == Expand(CopyBack(out, data[1], 0x100 - data[0]), data[2..])
  {
  }

  /** Expanding token by token from the left. */
  lemma {:induction false} ExpandAppend(out: seq<Byte>, data: seq<Byte>, more: seq<Byte>)
    requires WellFormed(|out|, data) && WellFormed(|Expand(out, data)|, more)
    ensures WellFormed(|out|, data + more) && Expand(out, data + more) == Expand(Expand(out, data), more)
    decreases |data|
  {
    if |data| == 0 {
      assert data + more == more;
    } else if data[0] < 0x80 {
      assert (data + more)[1..] == data[1..] + more;
      ExpandAppend(out + [data[0]], data[1..], more);
    } else {
      assert (data + more)[2..] == data[2..] + more;
      ExpandAppend(CopyBack(out, data[1], 0x100 - data[0]), data[2..], more);
    }
  }

  /** The `count` bytes of `text` at `to` repeat those at `from`. */
  predicate Matches(text: seq<Byte>, to: nat, from: nat, count: nat) {
    from < to && to + count <= |text| && text[to..to + count] == text[from..from + count]
  }

  /** Copying back reproduces a repetition, even one that overlaps itself. */
  lemma {:induction false} CopyReproduces(text: seq<Byte>, to: nat, from: nat, count: nat)
    requires Matches(text, to, from, count)
    ensures CopyBack(text[..to], to - from, count) == text[..to + count]
    decreases count
  {
    if count > 0 {
      assert text[to] == text[to..to + count][0] == text[from..from + count][0] == text[from];
      assert text[..to] + [text[to]] == text[..to + 1];
      assert text[to + 1..to + count] == text[to..to + count][1..];
      assert text[from + 1..from + count] == text[from..from + count][1..];
      CopyReproduces(text, to + 1, from + 1, count - 1);
    }
  }

  /** The match the compressor may use at `to`. */
  predicate Usable(text: seq<Byte>, to: nat, from: nat, count: nat) {
    3 <= count <= 127 && to - 255 <= from && Matches(text, to, from, count)
  }

  /** The longest usable match, and of those the one furthest back. */
  ghost predicate Best(text: seq<Byte>, to: nat, from: nat, count: nat) {
    && Usable(text, to, from, count)
    && (forall f: nat, c: nat :: c > count ==> !Usable(text, to, f, c))
    && (forall f: nat :: f < from ==> !Usable(text, to, f, count))
  }

  ghost predicate NoMatch(text: seq<Byte>, to: nat) {
    forall f: nat, c: nat :: !Usable(text, to, f, c)
  }

  /** `data` is the greedy encoding of text[to..]: at each position the best match followed by one literal, or a
      literal. */
  ghost predicate Greedy(text: seq<Byte>, to: nat, data: seq<Byte>)
    decreases |data|
  {
    if to >= |text| then to == |text| && data == []
    else if NoMatch(text, to) then
      |data| > 0 && data[0] == text[to] && Greedy(text, to + 1, data[1..])
    else
      && |data| >= 2 && 0x80 <= data[0] && data[1] <= to
      && var count := 0x100 - data[0];
      && Best(text, to, to - data[1], count)
      && (if to + count == |text| then data[2..] == []
          else |data| > 2 && data[2] == text[to + count] && Greedy(text, to + count + 1, data[3..]))
  }

  /** Any greedy encoding, of any text of bytes below 0x80, expands to the text. */
  lemma {:induction false} GreedyExpands(text: seq<Byte>, to: nat, data: seq<Byte>)
    requires Greedy(text, to, data) && forall i :: 0 <= i < |text| ==> text[i] < 0x80
    ensures to <= |text| && WellFormed(to, data) && Expand(text[..to], data) == text
    ensures |data| <= |text| - to
    decreases |data|
  {
    hide CopyBack, Matches, Best, NoMatch, Usable;
    if to >= |text| {
      assert text[..to] == text;
    } else if NoMatch(text, to) {
      assert text[..to] + [text[to]] == text[..to + 1];
      GreedyExpands(text, to + 1, data[1..]);
    } else {
      var count := 0x100 - data[0];
      BestMatches(text, to, to - data[1], count);
      if to + count == |text| {
        assert text[..to + count] == text;
      } else {
        assert data[2..][1..] == data[3..] && data[2..][0] == text[to + count];
        assert text[..to + count] + [text[to + count]] == text[..to + count + 1];
        GreedyExpands(text, to + count + 1, data[3..]);
      }
      ExpandMatch(text, to, count, data);
    }
  }

  lemma ExpandMatch(text: seq<Byte>, to: nat, count: nat, data: seq<Byte>)
    requires |data| >= 2 && data[0] == 0x100 - count && 0 < data[1] <= to && count <= 127
    requires Matches(text, to, to - data[1], count) && WellFormed(to + count, data[2..])
    ensures WellFormed(to, data) && Expand(text[..to], data) == Expand(text[..to + count], data[2..])
  {
    hide CopyBack, Matches;
    CopyReproduces(text, to, to - data[1], count);
  }

  lemma BestMatches(text: seq<Byte>, to: nat, from: nat, count: nat)
    requires Best(text, to, from, count)
    ensures Matches(text, to, from, count) && from < to <= from + 255 && to + count <= |text| && 3 <= count <= 127
  {
  }

  /** The next `count` bytes of the text occur also at most 255 bytes before. */
  ghost predicate Repeats(text: seq<Byte>, to: nat, count: nat) {
    exists from: nat :: from < to <= from + 255 && SameText(text, from, to, count)
  }

  predicate SameText(text: seq<Byte>, from: nat, to: nat, count: nat) {
    from + count <= |text| && to + count <= |text| && text[from..from + count] == text[to..to + count]
  }

  /** `data` encodes text[to..] without missing a repetition: a literal is emitted only where no three bytes repeat, unless
      it is the one that follows a match (`free`), and a match of less than 127 bytes is as long as any repetition there. */
  ghost predicate MissesNothing(text: seq<Byte>, to: nat, data: seq<Byte>, free: bool)
    decreases |data|
  {
    if |data| == 0 then true
    else if data[0] < 0x80 then (free || !Repeats(text, to, 3)) && MissesNothing(text, to + 1, data[1..], false)
    else
      var count := 0x100 - data[0];
      && |data| >= 2 && 3 <= count <= 127 && (count == 127 || !Repeats(text, to, count + 1))
      && MissesNothing(text, to + count, data[2..], true)
  }

  /** A greedy encoding misses no repetition. */
  lemma {:induction false} GreedyMissesNothing(text: seq<Byte>, to: nat, data: seq<Byte>)
    requires Greedy(text, to, data) && forall i :: 0 <= i < |text| ==> text[i] < 0x80
    ensures MissesNothing(text, to, data, false)
    decreases |data|
  {
    if to >= |text| {
    } else if NoMatch(text, to) {
      NoRepetition(text, to, 3);
      GreedyMissesNothing(text, to + 1, data[1..]);
    } else {
      var count := 0x100 - data[0];
      BestMatches(text, to, to - data[1], count);
      if count < 127 { NoRepetition(text, to, count + 1); }
      hide Matches, Best, NoMatch, Usable, Repeats;
      if to + count < |text| {
        assert data[2..][1..] == data[3..] && data[2..][0] == text[to + count];
        GreedyMissesNothing(text, to + count + 1, data[3..]);
      }
    }
  }

  lemma NoRepetition(text: seq<Byte>, to: nat, count: nat)
    requires 3 <= count <= 127 && forall from: nat :: !Usable(text, to, from, count)
    ensures !Repeats(text, to, count)
  {
    if Repeats(text, to, count) {
      var from: nat :| from < to <= from + 255 && SameText(text, from, to, count);
      assert Usable(text, to, from, count);
    }
  }

  lemma NearEnd(text: seq<Byte>, to: nat)
    requires |text| < to + 3
    ensures NoMatch(text, to)
  {
  }

  /** The literal after a match is emitted even where three bytes repeat: in "dxyabcabcdxy" the second "abc" is a match, and
      the "d" after it a literal. */
  lemma LiteralAfterMatch() returns (text: seq<Byte>, data: seq<Byte>)
    ensures text == [4, 8, 9, 1, 2, 3, 1, 2, 3, 4, 8, 9] && data == [0xfd, 3, 4, 8, 9]
    ensures Greedy(text, 6, data) && data[2] == text[9] && Repeats(text, 9, 3)
  {
    text, data := [4, 8, 9, 1, 2, 3, 1, 2, 3, 4, 8, 9], [0xfd, 3, 4, 8, 9];
    assert SameText(text, 0, 9, 3);
    SecondMatch(text);
    NearEnd(text, 10);
    NearEnd(text, 11);
    assert Usable(text, 6, 3, 3);
    hide NoMatch, Best, Repeats, SameText, Matches;
    var end: seq<Byte> := [];
    assert Greedy(text, 12, end) && Greedy(text, 11, [9]) && Greedy(text, 10, [8, 9]);
    assert data[3..] == [8, 9];
  }

  lemma MatchByte(text: seq<Byte>, to: nat, from: nat, count: nat, k: nat)
    requires Matches(text, to, from, count) && k < count
    ensures to + k < |text| && text[to + k] == text[from + k]
  {
    assert text[to..to + count][k] == text[from..from + count][k];
  }

  lemma SecondMatch(text: seq<Byte>)
    requires text == [4, 8, 9, 1, 2, 3, 1, 2, 3, 4, 8, 9]
    ensures Best(text, 6, 3, 3)
  {
    assert text[6..9] == text[3..6];
    assert Usable(text, 6, 3, 3);
    hide Matches;
    forall f: nat, c: nat | Usable(text, 6, f, c) ensures f == 3 && c == 3 {
      MatchByte(text, 6, f, c, 0);
      if c > 3 { MatchByte(text, 6, f, c, 3); }
    }
  }

  /** A text has only one greedy encoding. */
  lemma {:induction false} GreedyUnique(text: seq<Byte>, to: nat, data: seq<Byte>, data': seq<Byte>)
    requires Greedy(text, to, data) && Greedy(text, to, data')
    ensures data == data'
    decreases |data|
  {
    if to >= |text| {
    } else if NoMatch(text, to) {
      hide NoMatch, Best;
      GreedyUnique(text, to + 1, data[1..], data'[1..]);
      SplitAt(data, data', 1);
    } else {
      var count, count' := 0x100 - data[0], 0x100 - data'[0];
      BestUnique(text, to, to - data[1], count, to - data'[1], count');
      hide Best, NoMatch;
      assert data[0] == data'[0] && data[1] == data'[1];
      if to + count == |text| {
        SplitAt(data, data', 2);
      } else {
        GreedyUnique(text, to + count + 1, data[3..], data'[3..]);
        SplitAt(data, data', 3);
      }
    }
  }

  lemma SplitAt(s: seq<Byte>, t: seq<Byte>, k: nat)
    requires k <= |s| && k <= |t| && s[k..] == t[k..] && forall i :: 0 <= i < k ==> s[i] == t[i]
    ensures s == t
  {
    assert s == s[..k] + s[k..] && t == t[..k] + t[k..];
  }

  lemma BestUnique(text: seq<Byte>, to: nat, from: nat, count: nat, from': nat, count': nat)
    requires Best(text, to, from, count) && Best(text, to, from', count')
    ensures from == from' && count == count'
  {
    assert count > count' ==> !Usable(text, to, from, count);
    assert count' > count ==> !Usable(text, to, from', count');
    assert from < from' && count == count' ==> !Usable(text, to, from, count);
    assert from' < from && count == count' ==> !Usable(text, to, from', count');
  }
}
