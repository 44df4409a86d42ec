/** What the registers, the packet memory and the stream client of an endpoint have to look like, stated on
    values, with the effect of each elementary step. */
module EngineSpec {
  import opened Bits
  import opened StreamSpec

  /** The buffer that carries packet i when packet 0 goes into buffer `base`. */
  function SlotOf(doubled: bool, base: nat, i: int): (s: nat)
    ensures s < 2
  {
    if doubled then (base + i) % 2 else 0
  }

  function BufferCount(doubled: bool): nat { if doubled then 2 else 1 }

  /** The hardware holds exactly packets hwDone .. given - 1, and `give` is the buffer for the next packet. */
  ghost predicate Ownership(doubled: bool, base: nat, hwDone: int, given: int, give: nat, available: seq<bool>) {
    && base < 2 && |available| == 2 && 0 <= hwDone <= given <= hwDone + BufferCount(doubled)
    && give == SlotOf(doubled, base, given)
    && available[SlotOf(doubled, base, hwDone)] == (given > hwDone)
    && available[1 - SlotOf(doubled, base, hwDone)] == (given == hwDone + 2)
  }

  /** Giving a buffer while one is owned: the buffer is not held by the hardware. */
  lemma OwnershipGive(doubled: bool, base: nat, hwDone: int, given: int, give: nat, available: seq<bool>)
    requires Ownership(doubled, base, hwDone, given, give, available)
    requires given < hwDone + BufferCount(doubled)
    ensures give < 2 && |available| == 2 && !available[give] && give == SlotOf(doubled, base, given)
    ensures Ownership(doubled, base, hwDone, given + 1, if doubled then 1 - give else give, available[give := true])
  {
  }

  /** The hardware completes the oldest packet it holds. */
  lemma OwnershipDone(doubled: bool, base: nat, hwDone: int, given: int, give: nat, available: seq<bool>)
    requires Ownership(doubled, base, hwDone, given, give, available) && hwDone < given
    ensures |available| == 2 && available[SlotOf(doubled, base, hwDone)]
    ensures Ownership(doubled, base, hwDone + 1, given, give, available[SlotOf(doubled, base, hwDone) := false])
  {
  }

  /** The oldest held buffer, as the hardware reports it, from the registers alone. */
  function OldestHeld(doubled: bool, give: nat, available: seq<bool>): nat
    requires |available| == 2
  {
    if !doubled then 0
    else if available[0] && available[1] then give
    else if available[0] then 0 else 1
  }

  lemma OldestHeldIsNext(doubled: bool, base: nat, hwDone: int, given: int, give: nat, available: seq<bool>)
    requires Ownership(doubled, base, hwDone, given, give, available)
    ensures hwDone < given ==> OldestHeld(doubled, give, available) == SlotOf(doubled, base, hwDone)
    ensures hwDone < given <==> available[0] || available[1]
  {
  }

  /** The packet memory holds packets lo .. hi - 1. */
  ghost predicate InMemory(doubled: bool, base: nat, stream: seq<Byte>, lo: int, hi: int, slotData: seq<seq<Byte>>) {
    && |slotData| == 2 && 0 <= lo <= hi <= lo + BufferCount(doubled)
    && forall i :: lo <= i < hi && 64 * i < |stream| ==> slotData[SlotOf(doubled, base, i)] == Packet(stream, i)
  }

  lemma InMemoryAdd(doubled: bool, base: nat, stream: seq<Byte>, lo: int, hi: int, slotData: seq<seq<Byte>>, slot: nat)
    requires InMemory(doubled, base, stream, lo, hi, slotData) && hi < lo + BufferCount(doubled)
    requires slot == SlotOf(doubled, base, hi) && 64 * hi < |stream|
    ensures InMemory(doubled, base, stream, lo, hi + 1, slotData[slot := Packet(stream, hi)])
  {
    var after := slotData[slot := Packet(stream, hi)];
    forall i | lo <= i < hi + 1 && 64 * i < |stream|
      ensures after[SlotOf(doubled, base, i)] == Packet(stream, i)
    {
      if i < hi { assert SlotOf(doubled, base, i) != slot; }
    }
  }

  /** Writing to the buffer of packet hi does not touch the packets in memory. */
  lemma InMemoryWrite(doubled: bool, base: nat, stream: seq<Byte>, lo: int, hi: int, slotData: seq<seq<Byte>>, slot: nat,
                      data: seq<Byte>)
    requires InMemory(doubled, base, stream, lo, hi, slotData) && hi < lo + BufferCount(doubled)
    requires slot == SlotOf(doubled, base, hi)
    ensures InMemory(doubled, base, stream, lo, hi, slotData[slot := data])
  {
    forall i | lo <= i < hi && 64 * i < |stream|
      ensures slotData[slot := data][SlotOf(doubled, base, i)] == Packet(stream, i)
    {
      assert SlotOf(doubled, base, i) != slot;
    }
  }

  lemma InMemoryDrop(doubled: bool, base: nat, stream: seq<Byte>, lo: int, hi: int, slotData: seq<seq<Byte>>)
    requires InMemory(doubled, base, stream, lo, hi, slotData) && lo < hi
    ensures InMemory(doubled, base, stream, lo + 1, hi, slotData)
    ensures 64 * lo < |stream| ==> slotData[SlotOf(doubled, base, lo)] == Packet(stream, lo)
  {
  }

  /** The buffers of packets lo .. hi - 1 are marked full. */
  ghost predicate MarkedFull(doubled: bool, base: nat, lo: int, hi: int, full: seq<bool>) {
    |full| == 2 && forall i :: lo <= i < hi ==> full[SlotOf(doubled, base, i)]
  }

  /** The buffer the hardware looks at next. */
  function Selected(doubled: bool, selector: nat): nat { if doubled then selector else 0 }

  /** The buffers of packets lo .. hi - 1 carry the data PIDs of the packets after the first `acked` ones. */
  ghost predicate MarkedPids(doubled: bool, base: nat, lo: int, hi: int, acked: nat, data1: seq<bool>) {
    |data1| == 2 && forall i :: lo <= i < hi ==> data1[SlotOf(doubled, base, i)] == ((acked + i - lo) % 2 == 1)
  }

  lemma PidsGive(doubled: bool, base: nat, hwDone: int, given: int, give: nat, acked: nat, data1: seq<bool>)
    requires hwDone <= given < hwDone + BufferCount(doubled) && give == SlotOf(doubled, base, given)
    requires MarkedPids(doubled, base, hwDone, given, acked, data1)
    ensures MarkedPids(doubled, base, hwDone, given + 1, acked, data1[give := (acked + given - hwDone) % 2 == 1])
  {
    var after := data1[give := (acked + given - hwDone) % 2 == 1];
    forall i | hwDone <= i < given + 1 ensures after[SlotOf(doubled, base, i)] == ((acked + i - hwDone) % 2 == 1) {
      if i < given { assert SlotOf(doubled, base, i) != give; }
    }
  }

  lemma PidsDone(doubled: bool, base: nat, hwDone: int, given: int, acked: nat, data1: seq<bool>)
    requires MarkedPids(doubled, base, hwDone, given, acked, data1) && hwDone < given
    ensures data1[SlotOf(doubled, base, hwDone)] == (acked % 2 == 1)
    ensures MarkedPids(doubled, base, hwDone + 1, given, acked + 1, data1)
  {
  }

  /** What the hardware goes by: a buffer it holds is full for IN and empty for OUT and has the data PID of its packet,
      and the selected buffer is the one of the next packet, unless the next give will select (`armed`). */
  ghost predicate BusMarks(isIn: bool, doubled: bool, armed: bool, base: nat, hwDone: int, given: int, acked: nat,
                           available: seq<bool>, full: seq<bool>, data1: seq<bool>, selector: nat, hostData1: bool)
  {
    && |available| == |full| == |data1| == 2 && selector < 2 && hostData1 == (acked % 2 == 1)
    && (available[0] ==> full[0] == isIn) && (available[1] ==> full[1] == isIn)
    && MarkedPids(doubled, base, hwDone, given, acked, data1)
    && (if armed then given == 0 else Selected(doubled, selector) == SlotOf(doubled, base, hwDone))
  }

  /** An IN buffer is marked full while the hardware holds it, an OUT buffer while its packet is not finished. */
  ghost predicate FullMarks(isIn: bool, doubled: bool, base: nat, finished: int, hwDone: int, available: seq<bool>,
                            full: seq<bool>)
  {
    |full| == 2 && if isIn then full == available else MarkedFull(doubled, base, finished, hwDone, full)
  }

  lemma FullMarksDrop(isIn: bool, doubled: bool, base: nat, finished: int, hwDone: int, available: seq<bool>, full: seq<bool>)
    requires FullMarks(isIn, doubled, base, finished, hwDone, available, full)
    ensures FullMarks(isIn, doubled, base, finished + 1, hwDone, available, full)
  {
  }

  /** After a completion the hardware looks at the buffer of the next packet. */
  lemma SelectorDone(doubled: bool, base: nat, hwDone: nat, selector: nat)
    requires selector < 2 && Selected(doubled, selector) == SlotOf(doubled, base, hwDone)
    ensures Selected(doubled, 1 - selector) == SlotOf(doubled, base, hwDone + 1)
  {
  }

  /** A completion: the next buffer is selected, and the marks of those still held are right for the packets after. */
  lemma BusDone(isIn: bool, doubled: bool, armed: bool, base: nat, finished: int, hwDone: nat, given: int, acked: nat,
                available: seq<bool>, full: seq<bool>, data1: seq<bool>, selector: nat, hostData1: bool)
    requires BusMarks(isIn, doubled, armed, base, hwDone, given, acked, available, full, data1, selector, hostData1)
    requires FullMarks(isIn, doubled, base, finished, hwDone, available, full) && hwDone < given
    ensures var slot := SlotOf(doubled, base, hwDone);
      && BusMarks(isIn, doubled, armed, base, hwDone + 1, given, acked + 1, available[slot := false], full[slot := !isIn],
                  data1, 1 - selector, !hostData1)
      && FullMarks(isIn, doubled, base, finished, hwDone + 1, available[slot := false], full[slot := !isIn])
  {
    PidsDone(doubled, base, hwDone, given, acked, data1);
    SelectorDone(doubled, base, hwDone, selector);
    hide MarkedPids;
  }

  // ---- the stream client ---------------------------------------------------------------------------

  /** The i-th chunk of the stream, `size` bytes long except possibly the last. */
  ghost predicate ChunkAt(stream: seq<Byte>, size: nat, i: nat, c: Chunk) {
    && size * i < |stream| && c.len == Min(size, |stream| - size * i) && |c.data| == size
    && c.data[..c.len] == stream[size * i..size * i + c.len]
  }

  /** The client has seen the chunks of the stream in order, each once, up to byte `end`. */
  ghost predicate ChunksUpTo(stream: seq<Byte>, size: nat, chunks: seq<Chunk>, end: int) {
    && Min(size * |chunks|, |stream|) == end
    && forall i :: 0 <= i < |chunks| ==> ChunkAt(stream, size, i, chunks[i])
  }

  /** An IN client's chunk starting at `start` is in the chunk buffer and logged. */
  ghost predicate Filled(stream: seq<Byte>, size: nat, start: int, buffer: seq<Byte>, chunks: seq<Chunk>) {
    && 0 <= start < |stream| && |buffer| == size > 0
    && var end := Min(start + size, |stream|);
    ChunksUpTo(stream, size, chunks, end) && buffer[..end - start] == stream[start..end]
  }

  /** The client of an IN stream has filled every chunk that position pos has reached into. */
  ghost predicate ClientIn(stream: seq<Byte>, size: nat, pos: int, buffer: seq<Byte>, chunks: seq<Chunk>) {
    && 0 <= pos <= |stream| && size > 0 && |buffer| == size
    && (if pos % size == 0 then ChunksUpTo(stream, size, chunks, pos)
        else Filled(stream, size, pos - pos % size, buffer, chunks))
  }

  /** The client of an OUT stream has been handed every chunk that ends at or before pos. */
  ghost predicate ClientOut(stream: seq<Byte>, size: nat, pos: int, buffer: seq<Byte>, chunks: seq<Chunk>) {
    && 0 <= pos <= |stream| && size > 0 && |buffer| == size && ZeroTails(chunks, size)
    && var start := if pos == |stream| then pos else pos - pos % size;
    && ChunksUpTo(stream, size, chunks, start)
    && (start < pos ==> buffer == Padded(stream[start..pos], size))
  }

  /** Seeing one more chunk. */
  lemma NextChunk(stream: seq<Byte>, size: nat, chunks: seq<Chunk>, start: nat, c: Chunk)
    requires ChunksUpTo(stream, size, chunks, start) && start < |stream|
    requires c.len == Min(size, |stream| - start) && |c.data| == size && c.data[..c.len] == stream[start..start + c.len]
    ensures start == size * |chunks|
    ensures ChunksUpTo(stream, size, chunks + [c], start + c.len)
  {
    var more := chunks + [c];
    assert size * |more| == size * |chunks| + size;
    forall i | 0 <= i < |more| ensures ChunkAt(stream, size, i, more[i]) {
      if i < |chunks| { assert more[i] == chunks[i]; }
    }
  }

  lemma LastChunk(stream: seq<Byte>, size: nat, chunks: seq<Chunk>, end: nat)
    requires ChunksUpTo(stream, size, chunks, end) && |chunks| > 0
    ensures var n, last := |chunks| - 1, chunks[|chunks| - 1];
      var start := end - last.len;
      && 0 <= start <= end <= |stream| && ChunksUpTo(stream, size, chunks[..n], start)
      && last.len <= |last.data| && last.data[..last.len] == stream[start..end]
  {
    var n := |chunks| - 1;
    assert ChunkAt(stream, size, n, chunks[n]);
    var start := size * n;
    MulMono(size, 0, n);
    assert size * |chunks| == start + size;
    forall i | 0 <= i < n ensures ChunkAt(stream, size, i, chunks[..n][i]) {
      assert chunks[..n][i] == chunks[i];
    }
  }

  /** The chunks seen concatenate to the stream. */
  lemma {:induction false} ChunksFlatten(stream: seq<Byte>, size: nat, chunks: seq<Chunk>, end: nat)
    requires ChunksUpTo(stream, size, chunks, end)
    ensures end <= |stream| && Flatten(chunks) == stream[..end]
  {
    if |chunks| > 0 {
      LastChunk(stream, size, chunks, end);
      var start := end - chunks[|chunks| - 1].len;
      ChunksFlatten(stream, size, chunks[..|chunks| - 1], start);
      assert stream[..end] == stream[..start] + stream[start..end];
    }
  }

  /** The chunk length an IN packet at `offset` asks the client for, zero inside a chunk. */
  function InChunkLength(offset: nat, length: nat, size: nat): int
    requires size > 0
  {
    if ChunkOffset(offset, size) != 0 then 0
    else if Add(offset, size) > length then length - offset else size
  }

  /** At the start of a chunk the request is right exactly while the end of a whole chunk fits 32 bits. */
  lemma ChunkRequestExact(offset: nat, length: nat, size: nat)
    requires ValidChunkSize(size) && offset % size == 0 && offset < length < 0x1_0000_0000
    ensures InChunkLength(offset, length, size) == Min(size, length - offset) <==> offset + size < 0x1_0000_0000
  {
    ChunkOffsetIsRemainder(offset, size);
    ChunkBoundary(offset, size);
    EndOfChunk(offset, size);
    hide ChunkOffset, ValidChunkSize, Add;
  }

  lemma EndOfChunk(offset: nat, size: nat)
    requires offset + size <= 0x1_0000_0000
    ensures Add(offset, size) == if offset + size < 0x1_0000_0000 then offset + size else 0
  {
  }

  /** A chunk that starts below 2^32 ends at most there, because its size divides 2^32. */
  lemma ChunkBoundary(offset: nat, size: nat)
    requires ValidChunkSize(size) && offset % size == 0 && offset < 0x1_0000_0000
    ensures offset + size <= 0x1_0000_0000
  {
    var j: nat :| j <= 32 && size == Pow2(j);
    PowersOf32(j);
    hide Pow2;
    ExactQuotient(offset, size);
    NextMultiple(size, offset / size, Pow2(32 - j));
  }

  lemma PowersOf32(j: nat)
    requires j <= 32
    ensures Pow2(j) * Pow2(32 - j) == 0x1_0000_0000
  {
    assert Pow2(8) == 0x100;
    assert Pow2(16) == 0x1_0000 by { Pow2Add(8, 8); }
    assert Pow2(32) == 0x1_0000_0000 by { Pow2Add(16, 16); }
    Pow2Add(j, 32 - j);
  }

  lemma ExactQuotient(x: nat, d: nat)
    requires d > 0 && x % d == 0
    ensures x == d * (x / d)
  {
  }

  lemma NextMultiple(size: nat, q: nat, n: nat)
    requires size * q < size * n
    ensures size * q + size <= size * n
  {
    if q >= n { MulMono(size, n, q); }
    MulMono(size, q + 1, n);
    assert size * (q + 1) == size * q + size;
  }

  /** The length of a transfer rounded up to packets is right exactly while rounding up fits 32 bits, and zero
      otherwise. */
  lemma PacketCountExact(length: nat)
    requires length < 0x1_0000_0000
    ensures PacketCount(length) == (length + 63) / 64 <==> length + 63 < 0x1_0000_0000
    ensures length + 63 >= 0x1_0000_0000 ==> PacketCount(length) == 0
  {
    if length + 63 >= 0x1_0000_0000 {
      WrapShift(length + 63 - 0x1_0000_0000, 1);
      WrapSmall(length + 63 - 0x1_0000_0000);
    } else {
      AddSmall(length, 63);
    }
  }

  /** Every IN chunk request of a transfer is right. */
  ghost predicate ChunkRequestsRight(length: nat, size: nat)
    requires size > 0
  {
    forall offset: nat :: offset < length && offset % size == 0 ==>
      InChunkLength(offset, length, size) == Min(size, length - offset)
  }

  /** The limits of ValidTransfer are exact: they are what the packet count and, for IN, every chunk request need. */
  lemma TransferExact(isIn: bool, length: nat, size: nat)
    requires 0 < length < 0x1_0000_0000 && ValidChunkSize(size) && size % 64 == 0
    ensures ValidTransfer(isIn, length, size) <==>
      PacketCount(length) == (length + 63) / 64 && (isIn ==> ChunkRequestsRight(length, size))
    ensures length + 63 >= 0x1_0000_0000 ==> PacketCount(length) == 0
  {
    PacketCountExact(length);
    ChunkRequestsExact(length, size);
    hide PacketCount, ChunkRequestsRight;
  }

  lemma ChunkRequestsExact(length: nat, size: nat)
    requires 0 < length < 0x1_0000_0000 && ValidChunkSize(size)
    ensures size > 0 && (ChunkRequestsRight(length, size) <==> length + size <= 0x1_0000_0000)
  {
    hide InChunkLength;
    if length + size <= 0x1_0000_0000 {
      forall offset: nat | offset < length && offset % size == 0
        ensures InChunkLength(offset, length, size) == Min(size, length - offset)
      {
        ChunkRequestExact(offset, length, size);
      }
    } else {
      LastChunkStart(size);
      ChunkRequestExact(0x1_0000_0000 - size, length, size);
    }
  }

  lemma LastChunkStart(size: nat)
    requires ValidChunkSize(size)
    ensures size <= 0x1_0000_0000 && (0x1_0000_0000 - size) % size == 0
  {
    var j: nat :| j <= 32 && size == Pow2(j);
    PowersOf32(j);
    hide Pow2;
    BeforeMultiple(size, Pow2(32 - j));
  }

  /** A multiple less one factor is one again. */
  lemma BeforeMultiple(size: nat, n: nat)
    requires size > 0 && size * n > 0
    ensures size <= size * n && (size * n - size) % size == 0
  {
    MulMono(size, 1, n);
    assert size * (n - 1) == size * n - size;
    DivModUnique(size * n - size, size, n - 1, 0);
  }

  /** The chunk length an OUT packet at `offset` completes, zero inside a chunk. */
  function OutChunkLength(offset: nat, length: nat, size: nat): nat
    requires size > 0
  {
    var rest := ChunkOffset(length, size);
    if Add(offset, 64) >= length then (if rest != 0 then rest else size)
    else if ChunkOffset(offset, size) + 64 >= size then size
    else 0
  }

  /** Offsets of whole packets inside chunks of whole packets. */
  lemma PacketInChunk(i: nat, size: nat)
    requires size > 0 && size % 64 == 0
    ensures (64 * i) % size % 64 == 0 && (64 * i) % size + 64 <= size
    ensures (64 * (i + 1)) % size == (if (64 * i) % size + 64 == size then 0 else (64 * i) % size + 64)
  {
    var q, r := (64 * i) / size, (64 * i) % size;
    var n := size / 64;
    var nq := n * q;
    assert size * q == 64 * nq by { MulAssoc(64, n, q); }
    assert r == 64 * (i - nq);
    if r + 64 == size {
      assert size * (q + 1) == size * q + size;
      DivModUnique(64 * (i + 1), size, q + 1, 0);
    } else {
      DivModUnique(64 * (i + 1), size, q, r + 64);
    }
  }

  /** The chunk buffer after an OUT packet was copied in, zeroed first at the start of a chunk. */
  function Copied(buffer: seq<Byte>, size: nat, at: nat, data: seq<Byte>): (b: seq<Byte>)
    requires |buffer| == size && at + |data| <= size
    ensures |b| == size
  {
    var b := if at == 0 then seq(size, i => 0) else buffer;
    b[..at] + data + b[at + |data|..]
  }

  /** Copying keeps the buffer equal to the chunk so far, padded with zeros. */
  lemma CopiedIsPadded(stream: seq<Byte>, size: nat, start: nat, at: nat, buffer: seq<Byte>, data: seq<Byte>)
    requires |buffer| == size && at + |data| <= size && start + at + |data| <= |stream|
    requires data == stream[start + at..start + at + |data|]
    requires at > 0 ==> buffer == Padded(stream[start..start + at], size)
    ensures Copied(buffer, size, at, data) == Padded(stream[start..start + at + |data|], size)
  {
    var done, all := stream[start..start + at], stream[start..start + at + |data|];
    assert all == done + data;
    var b := if at == 0 then seq(size, i => 0) else buffer;
    assert b == done + seq(size - at, i => 0);
    assert b[..at] == done && b[at + |data|..] == seq(size - at - |data|, i => 0);
  }

  /** Facts about offsets of a transfer that cannot wrap around 32 bits. */
  lemma ChunkArithmetic(isIn: bool, length: nat, size: nat, i: nat)
    requires ValidTransfer(isIn, length, size) && 64 * i < length
    ensures ChunkOffset(64 * i, size) == (64 * i) % size
    ensures ChunkOffset(length, size) == length % size
    ensures Add(64 * i, 64) == 64 * i + 64
    ensures isIn && (64 * i) % size == 0 ==> Add(64 * i, size) == 64 * i + size
    ensures 64 * i - (64 * i) % size + size >= 64 * i + 64
    ensures length <= 64 * i - (64 * i) % size + size ==>
      length % size == (var rest := length - (64 * i - (64 * i) % size); if rest == size then 0 else rest)
  {
    hide ChunkOffset;
    ChunkOffsetIsRemainder(64 * i, size);
    ChunkOffsetIsRemainder(length, size);
    PacketInChunk(i, size);
    AddSmall(64 * i, 64);
    if isIn { AddSmall(64 * i, size); }
    if length <= 64 * i - (64 * i) % size + size { LastChunkRemainder(length, size, 64 * i); }
  }

  lemma LastChunkRemainder(length: nat, size: nat, offset: nat)
    requires 0 < size && offset < length <= offset - offset % size + size
    ensures length % size == (var rest := length - (offset - offset % size); if rest == size then 0 else rest)
  {
    var q := offset / size;
    var rest := length - size * q;
    assert offset - offset % size == size * q;
    if rest == size {
      assert size * (q + 1) == size * q + size;
      DivModUnique(length, size, q + 1, 0);
    } else {
      DivModUnique(length, size, q, rest);
    }
  }

  lemma OutLengths(length: nat, size: nat, i: nat)
    requires ValidTransfer(false, length, size) && 64 * i < length
    ensures var n, at, end := OutChunkLength(64 * i, length, size), (64 * i) % size, Position(length, i + 1);
      && (n != 0 ==> n == end - (64 * i - at) && end == Min(64 * i - at + size, length) && (end == length || end % size == 0))
      && (n == 0 ==> end == 64 * i + 64 < length && end % size == at + 64)
      && at + (end - 64 * i) <= size
  {
    ChunkArithmetic(false, length, size, i);
    PacketInChunk(i, size);
  }

  /** An OUT packet: the client sees a chunk exactly when the packet completes one. */
  lemma OutStep(stream: seq<Byte>, size: nat, i: nat, buffer: seq<Byte>, chunks: seq<Chunk>)
    requires ValidTransfer(false, |stream|, size) && 64 * i < |stream|
    requires ClientOut(stream, size, 64 * i, buffer, chunks)
    ensures var n, at, data := OutChunkLength(64 * i, |stream|, size), (64 * i) % size, Packet(stream, i);
      && |buffer| == size && at + |data| <= size
      && var after := Copied(buffer, size, at, data);
      && ClientOut(stream, size, Position(|stream|, i + 1), after, if n != 0 then chunks + [Chunk(n, after)] else chunks)
      && (n != 0 ==> ChunkAt(stream, size, |chunks|, Chunk(n, after)))
  {
    hide OutChunkLength, ChunkOffset, Copied, ChunksUpTo, ChunkAt, ZeroTails;
    var n, at, data := OutChunkLength(64 * i, |stream|, size), (64 * i) % size, Packet(stream, i);
    var start, end := 64 * i - at, Position(|stream|, i + 1);
    OutLengths(|stream|, size, i);
    ModLe(64 * i, size);
    PacketInChunk(i, size);
    hide ValidTransfer, Position;
    OutAppend(stream, size, start, at, end, buffer, chunks);
    if n == 0 { assert end - end % size == start; }
  }

  lemma OutAppend(stream: seq<Byte>, size: nat, start: nat, at: nat, end: nat, buffer: seq<Byte>, chunks: seq<Chunk>)
    requires |buffer| == size && start + at <= end <= |stream| && start < end <= start + size
    requires ChunksUpTo(stream, size, chunks, start) && ZeroTails(chunks, size)
    requires at > 0 ==> buffer == Padded(stream[start..start + at], size)
    ensures var after := Copied(buffer, size, at, stream[start + at..end]);
      var handed := chunks + [Chunk(end - start, after)];
      && after == Padded(stream[start..end], size)
      && (end == Min(start + size, |stream|) ==>
            && ChunksUpTo(stream, size, handed, end) && ZeroTails(handed, size)
            && ChunkAt(stream, size, |chunks|, Chunk(end - start, after)))
  {
    CopiedIsPadded(stream, size, start, at, buffer, stream[start + at..end]);
    var after := Copied(buffer, size, at, stream[start + at..end]);
    var c := Chunk(end - start, after);
    PaddedChunk(stream[start..end], size);
    if end == Min(start + size, |stream|) {
      NextChunk(stream, size, chunks, start, c);
      LastIsChunkAt(stream, size, chunks, c, end);
      ZeroTailsAppend(chunks, c, size);
    }
  }

  lemma PaddedChunk(data: seq<Byte>, size: nat)
    requires |data| <= size
    ensures Padded(data, size)[..|data|] == data
    ensures ZeroTail(Chunk(|data|, Padded(data, size)), size)
  {
  }

  lemma LastIsChunkAt(stream: seq<Byte>, size: nat, chunks: seq<Chunk>, c: Chunk, end: nat)
    requires ChunksUpTo(stream, size, chunks + [c], end)
    ensures ChunkAt(stream, size, |chunks|, c)
  {
    assert (chunks + [c])[|chunks|] == c;
  }

  lemma ZeroTailsAppend(chunks: seq<Chunk>, c: Chunk, size: nat)
    requires ZeroTails(chunks, size) && ZeroTail(c, size)
    ensures ZeroTails(chunks + [c], size)
  {
    hide ZeroTail;
  }

  lemma ModLe(x: nat, d: nat)
    requires d > 0
    ensures x % d <= x
  {
    var q := x / d;
    assert x == d * q + x % d;
    MulMono(d, 0, q);
  }

  lemma InLengths(length: nat, size: nat, i: nat)
    requires ValidTransfer(true, length, size) && 64 * i < length
    ensures var n, at, end := InChunkLength(64 * i, length, size), (64 * i) % size, Position(length, i + 1);
      && n == (if at == 0 then Min(64 * i + size, length) - 64 * i else 0)
      && 0 <= at <= 64 * i && at + 64 <= size
      && (end < length ==> end % size == (if at + 64 == size then 0 else at + 64))
  {
    ChunkArithmetic(true, length, size, i);
    PacketInChunk(i, size);
    ModLe(64 * i, size);
  }

  /** Filling the chunk an IN packet asked for. */
  lemma InFill(stream: seq<Byte>, size: nat, i: nat, buffer: seq<Byte>, chunks: seq<Chunk>)
    requires ValidTransfer(true, |stream|, size) && 64 * i < |stream| && (64 * i) % size == 0
    requires ClientIn(stream, size, 64 * i, buffer, chunks)
    ensures var n := Min(64 * i + size, |stream|) - 64 * i;
      && 0 < n <= size == |buffer|
      && var after := stream[64 * i..64 * i + n] + buffer[n..];
      Filled(stream, size, 64 * i, after, chunks + [Chunk(n, after)])
  {
    var n := Min(64 * i + size, |stream|) - 64 * i;
    var after := stream[64 * i..64 * i + n] + buffer[n..];
    assert after[..n] == stream[64 * i..64 * i + n];
    NextChunk(stream, size, chunks, 64 * i, Chunk(n, after));
  }

  /** A packet taken from a filled chunk is the right packet, and the chunk still serves the next one. */
  lemma InAdvance(stream: seq<Byte>, size: nat, i: nat, buffer: seq<Byte>, chunks: seq<Chunk>)
    requires ValidTransfer(true, |stream|, size) && 64 * i < |stream|
    requires Filled(stream, size, 64 * i - (64 * i) % size, buffer, chunks)
    ensures var at, len := (64 * i) % size, Position(|stream|, i + 1) - 64 * i;
      && at + len <= |buffer| && buffer[at..at + len] == Packet(stream, i)
    ensures ClientIn(stream, size, Position(|stream|, i + 1), buffer, chunks)
  {
    hide ChunkOffset, InChunkLength, ChunksUpTo;
    var at, pos := (64 * i) % size, Position(|stream|, i + 1);
    var start := 64 * i - at;
    InLengths(|stream|, size, i);
    TakenFromChunk(stream, size, start, at, pos, buffer, chunks);
    NextChunkStart(|stream|, size, i);
  }

  lemma TakenFromChunk(stream: seq<Byte>, size: nat, start: nat, at: nat, pos: nat, buffer: seq<Byte>, chunks: seq<Chunk>)
    requires Filled(stream, size, start, buffer, chunks)
    requires start + at <= pos <= |stream| && pos <= start + size
    ensures pos - start <= |buffer| && buffer[at..pos - start] == stream[start + at..pos]
    ensures pos == Min(start + size, |stream|) ==> ChunksUpTo(stream, size, chunks, pos)
  {
    var end := Min(start + size, |stream|);
    assert buffer[at..pos - start] == buffer[..end - start][at..pos - start];
    assert stream[start + at..pos] == stream[start..end][at..pos - start];
  }

  /** Where the packet ends: inside its chunk, or at a chunk or stream boundary. */
  lemma NextChunkStart(length: nat, size: nat, i: nat)
    requires ValidTransfer(true, length, size) && 64 * i < length
    ensures var pos, start := Position(length, i + 1), 64 * i - (64 * i) % size;
      && (pos % size == 0 ==> pos == Min(start + size, length))
      && (pos % size != 0 ==> pos - pos % size == start)
  {
    InLengths(length, size, i);
    if length <= 64 * i + 64 {
      LastPosition(length, size, i);
      ChunkArithmetic(true, length, size, i);
    }
  }

  lemma LastPosition(length: nat, size: nat, i: nat)
    requires ValidTransfer(true, length, size) && 64 * i < length <= 64 * i + 64
    ensures length % size != 0 ==> length - length % size == 64 * i - (64 * i) % size
  {
    ChunkArithmetic(true, length, size, i);
  }
}
