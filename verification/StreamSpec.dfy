/** The byte-level vocabulary of a streamed transfer: packets of 64 bytes, chunks of a power-of-two size. */
module StreamSpec {
  import opened Bits

  /** A chunk handed to or filled by the client: `data` is the whole chunk buffer, `len` bytes of it count. */
  datatype Chunk = Chunk(len: nat, data: seq<Byte>)

  function Min(a: int, b: int): int { if a < b then a else b }

  /** ChunkSize is a power of two of at least a packet. */
  ghost predicate ValidChunkSize(chunkSize: nat) {
    64 <= chunkSize && exists j: nat :: j <= 32 && chunkSize == Pow2(j)
  }

  /** Transfers whose arithmetic does not wrap around 32 bits: rounding the length up to packets, and for IN also the
      end of a whole chunk from the start of the last one. */
  ghost predicate ValidTransfer(isIn: bool, length: nat, chunkSize: nat) {
    && 0 < length && ValidChunkSize(chunkSize) && chunkSize % 64 == 0 && length + 63 < 0x1_0000_0000
    && (isIn ==> length + chunkSize <= 0x1_0000_0000)
  }

  /** On a double-buffered IN endpoint a chunk of a stream of several packets also has to be at least two packets. */
  ghost predicate ValidStream(isIn: bool, doubled: bool, length: nat, chunkSize: nat) {
    ValidTransfer(isIn, length, chunkSize) && (isIn && doubled && length > 64 ==> 128 <= chunkSize)
  }

  /** offset & (chunk_size - 1) */
  function ChunkOffset(offset: nat, chunkSize: nat): nat
    requires chunkSize > 0
  {
    And(32, offset, chunkSize - 1)
  }

  lemma ChunkOffsetIsRemainder(offset: nat, chunkSize: nat)
    requires ValidChunkSize(chunkSize)
    ensures ChunkOffset(offset, chunkSize) == offset % chunkSize
  {
    var j: nat :| j <= 32 && chunkSize == Pow2(j);
    AndMask(32, j, offset);
  }

  /** (transfer_length + 63) / 64 in 32 bits */
  function PacketCount(length: nat): nat { Add(length, 63) / 64 }

  /** The bytes of the packet with index i. */
  function Packet(stream: seq<Byte>, i: nat): (p: seq<Byte>)
    requires 64 * i < |stream|
    ensures 1 <= |p| <= 64
  {
    stream[64 * i..Min(64 * (i + 1), |stream|)]
  }

  /** Stream position after i packets. */
  function Position(length: nat, i: nat): nat { Min(64 * i, length) }

  /** All chunk contents in order. */
  function Flatten(chunks: seq<Chunk>): seq<Byte> {
    if |chunks| == 0 then []
    else
      var last := chunks[|chunks| - 1];
      Flatten(chunks[..|chunks| - 1]) + (if last.len <= |last.data| then last.data[..last.len] else last.data)
  }

  /** Every chunk fills its whole buffer and is zero beyond its length. */
  ghost predicate ZeroTails(chunks: seq<Chunk>, chunkSize: nat) {
    forall i :: 0 <= i < |chunks| ==> ZeroTail(chunks[i], chunkSize)
  }

  ghost predicate ZeroTail(c: Chunk, chunkSize: nat) {
    c.len <= chunkSize == |c.data| && forall j :: c.len <= j < chunkSize ==> c.data[j] == 0
  }

  /** A chunk buffer holding `data` and zeros after it. */
  function Padded(data: seq<Byte>, size: nat): (b: seq<Byte>)
    ensures |data| <= size ==> |b| == size
  {
    if |data| >= size then data else data + seq(size - |data|, i => 0)
  }

  lemma PacketAppend(stream: seq<Byte>, i: nat)
    requires 64 * i < |stream|
    ensures stream[..Position(|stream|, i + 1)] == stream[..Position(|stream|, i)] + Packet(stream, i)
  {
  }
}
