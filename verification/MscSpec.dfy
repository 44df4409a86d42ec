/** Command wrappers of the USB Mass Storage Class Bulk-Only Transport 1.0, and what a device has to make of each:
    sections 5.2 (valid and meaningful wrappers) and 6.7 (the thirteen cases). */
module MscSpec {
  import opened Bits
  import StreamSpec
  import EngineSpec

  datatype Direction = NoDirection | DirIn | DirOut

  datatype Status = Passed | Failed | PhaseError

  /** A command block wrapper as received. */
  datatype Cbw = Cbw(sig: Word, tag: Word, dataTransferLength: Word, flags: Byte, lun: Byte, cbLength: Byte, cb: seq<Byte>)

  /** A command status wrapper. */
  datatype Csw = Csw(tag: Word, residue: Word, status: Status)

  const CBW_SIG: Word := 0x4342_5355

  /** The wrapper is accepted: right length and signature, unit zero, no reserved flags, a command of 1 to 16 bytes. */
  predicate Accepted(length: nat, cbw: Cbw) {
    && length == 31 && cbw.sig == CBW_SIG && cbw.lun == 0 && cbw.flags % 0x80 == 0
    && 0 < cbw.cbLength <= 16
  }

  function HostDirection(cbw: Cbw): Direction { if cbw.flags >= 0x80 then DirIn else DirOut }

  // ---- SCSI commands --------------------------------------------------------------------------------------

  const INQUIRY: Byte := 0x12
  const MODE_SENSE_6: Byte := 0x1a
  const PREVENT_ALLOW_MEDIUM_REMOVAL: Byte := 0x1e
  const READ_10: Byte := 0x28
  const WRITE_10: Byte := 0x2a
  const READ_FORMAT_CAPACITIES: Byte := 0x23
  const READ_CAPACITY_10: Byte := 0x25
  const REQUEST_SENSE: Byte := 0x03
  const TEST_UNIT_READY: Byte := 0x00
  const START_STOP_UNIT: Byte := 0x1b
  const SYNCHRONIZE_CACHE: Byte := 0x35
  const VERIFY: Byte := 0x2f

  const SECTOR_SIZE: nat := 512

  /** The block count of READ(10) and WRITE(10), big-endian. */
  function Blocks(cbw: Cbw): nat
    requires |cbw.cb| == 16
  {
    var high: int, low: int := cbw.cb[7], cbw.cb[8];
    0x100 * high + low
  }

  /** The first sector of READ(10) and WRITE(10), big-endian. */
  function FirstSector(cbw: Cbw): Word
    requires |cbw.cb| == 16
  {
    var b3: int, b2: int, b1: int, b0: int := cbw.cb[2], cbw.cb[3], cbw.cb[4], cbw.cb[5];
    0x100_0000 * b3 + 0x1_0000 * b2 + 0x100 * b1 + b0
  }

  /** Sectors in order; their number wraps around at 2^32. */
  function Sectors(first: Word, count: nat): (s: seq<Word>)
    ensures |s| == count && forall i :: 0 <= i < count ==> s[i] == (first + i) % 0x1_0000_0000
  {
    if count == 0 then [] else Sectors(first, count - 1) + [Add(first, count - 1)]
  }

  /** The sectors the disk is asked for when a command moves `moved` bytes. */
  function Requested(cbw: Cbw, moved: nat): seq<Word>
    requires |cbw.cb| == 16
  {
    if MovesSectors(cbw) then Sectors(FirstSector(cbw), (moved + SECTOR_SIZE - 1) / SECTOR_SIZE) else []
  }

  /** The data a command would move if the host asked for enough: none, or a number of bytes one way. */
  datatype Intent = NoData(ok: bool) | Data(direction: Direction, length: nat)

  function Response(length: nat, cbw: Cbw): Intent {
    Data(DirIn, if length < cbw.dataTransferLength then length else cbw.dataTransferLength)
  }

  /** What the device intends to do for a command; responses other than blocks are cut to what the host asks for. */
  function Intended(cbw: Cbw, ejected: bool): Intent
    requires |cbw.cb| == 16
  {
    var cmd := cbw.cb[0];
    if cmd == INQUIRY then Response(36, cbw)
    else if cmd == MODE_SENSE_6 then Response(4, cbw)
    else if cmd == READ_FORMAT_CAPACITIES then Response(12, cbw)
    else if cmd == READ_CAPACITY_10 then Response(8, cbw)
    else if cmd == REQUEST_SENSE then Response(18, cbw)
    else if cmd == READ_10 then Data(DirIn, SECTOR_SIZE * Blocks(cbw))
    else if cmd == WRITE_10 then Data(DirOut, SECTOR_SIZE * Blocks(cbw))
    else if cmd == TEST_UNIT_READY then NoData(!ejected)
    else NoData(cmd == PREVENT_ALLOW_MEDIUM_REMOVAL || cmd == START_STOP_UNIT || cmd == SYNCHRONIZE_CACHE || cmd == VERIFY)
  }

  // ---- the thirteen cases ----------------------------------------------------------------------------------

  /** How a command ends: bytes moved, the pipe stalled before the status, and the status. */
  datatype Outcome = Outcome(moved: nat, stall: Direction, status: Status)

  /** Section 6.7 for a host that expects `expected` bytes in direction `host` (none if zero) and a device that
      intends to move `intended` bytes in direction `device` (none if zero): a phase error exactly when the device
      would move data the host does not expect; otherwise passed or failed. What the host did expect and did not
      get ends in a stall of its pipe. */
  predicate ThirteenCases(expected: nat, host: Direction, intended: nat, device: Direction, o: Outcome) {
    var unexpected := intended > 0 && (expected == 0 || host != device || intended > expected);
    && (o.status == PhaseError <==> unexpected)
    && o.moved <= expected
    && (!unexpected ==> o.moved == intended)
    && (!unexpected && intended == expected ==> o.stall == NoDirection)
    && (expected > 0 && o.moved < expected ==> o.stall == host)
    && (o.stall != NoDirection ==> o.stall == host)
  }

  /** What the code does with a command. */
  function Planned(cbw: Cbw, intent: Intent): Outcome {
    var dtl, host := cbw.dataTransferLength, HostDirection(cbw);
    match intent
    case NoData(ok) => Outcome(0, if dtl > 0 then host else NoDirection, if ok then Passed else Failed)
    case Data(direction, length) =>
      if host != direction then Outcome(0, host, PhaseError)
      else
        var phase := if length < dtl then length else dtl;
        Outcome(if phase == length then phase else phase - phase % 64, if length != dtl then host else NoDirection,
                if length > dtl then PhaseError else Passed)
  }

  function IntendedLength(intent: Intent): nat { if intent.Data? then intent.length else 0 }

  function IntendedDirection(intent: Intent): Direction { if intent.Data? then intent.direction else NoDirection }

  predicate MeetsThirteenCases(cbw: Cbw, intent: Intent, o: Outcome) {
    ThirteenCases(cbw.dataTransferLength, HostDirection(cbw), IntendedLength(intent), IntendedDirection(intent), o)
  }

  /** A command that could move data, has none to move, and does not carry its own direction bit. */
  predicate EmptyInWrongDirection(cbw: Cbw, intent: Intent) {
    intent.Data? && intent.length == 0 && intent.direction != HostDirection(cbw)
  }

  /** The code meets section 6.7 exactly when it does not take a data command without data for one in the wrong
      direction. */
  lemma PlanCompliant(cbw: Cbw, ejected: bool)
    requires |cbw.cb| == 16
    ensures var intent := Intended(cbw, ejected);
      MeetsThirteenCases(cbw, intent, Planned(cbw, intent)) <==> !EmptyInWrongDirection(cbw, intent)
  {
  }

  /** An inquiry that asks for no bytes and does not set the direction bit ends in a phase error. */
  lemma EmptyInquiryFails() returns (cbw: Cbw)
    ensures Accepted(31, cbw) && |cbw.cb| == 16 && cbw.dataTransferLength == 0
    ensures Planned(cbw, Intended(cbw, false)) == Outcome(0, DirOut, PhaseError)
    ensures !MeetsThirteenCases(cbw, Intended(cbw, false), Planned(cbw, Intended(cbw, false)))
  {
    cbw := Cbw(CBW_SIG, 1, 0, 0, 0, 6, [INQUIRY, 0, 0, 0, 36, 0, 0, 0, 0, 0, 0, 0, 0, 0, 0, 0]);
  }

  // ---- what a host asks for -----------------------------------------------------------------------------------

  /** What a host that reads the wrapper byte by byte gets for its command, from the SCSI commands' own descriptions and
      the rule of section 6.7 for lengths that differ: bytes moved, the pipe stalled, the status, and the sectors asked of
      the disk. */
  predicate AsAsked(c: Cbw, ejected: bool, moved: nat, stalled: Direction, status: Status, sectors: seq<Word>)
    requires |c.cb| == 16
  {
    var op, toHost := c.cb[0], c.flags >= 0x80;
    if op == 0x28 || op == 0x2a then
      if toHost == (op == 0x28) then BlocksMoved(c, moved, stalled, status, sectors)
      else moved == 0 && status == PhaseError && stalled == (if toHost then DirIn else DirOut) && sectors == []
    else
      && sectors == []
      && match op
         case 0x12 => ResponseMoved(c, 36, moved, stalled, status)
         case 0x1a => ResponseMoved(c, 4, moved, stalled, status)
         case 0x23 => ResponseMoved(c, 12, moved, stalled, status)
         case 0x25 => ResponseMoved(c, 8, moved, stalled, status)
         case 0x03 => ResponseMoved(c, 18, moved, stalled, status)
         case _ =>
           && moved == 0
           && stalled == (if c.dataTransferLength == 0 then NoDirection else if toHost then DirIn else DirOut)
           && (status == Passed <==> op in {0x1e, 0x1b, 0x35, 0x2f} || (op == 0x00 && !ejected))
           && (status == Passed || status == Failed)
  }

  /** READ(10) with the direction bit, WRITE(10) without: all blocks if the host asks for as much or more, else the whole
      packets of what it asks for and a phase error; what is left over is stalled. */
  predicate BlocksMoved(c: Cbw, moved: nat, stalled: Direction, status: Status, sectors: seq<Word>)
    requires |c.cb| == 16
  {
    var asked: int, high: int, low: int := c.dataTransferLength, c.cb[7], c.cb[8];
    var b3: int, b2: int, b1: int, b0: int := c.cb[2], c.cb[3], c.cb[4], c.cb[5];
    var all := 512 * (256 * high + low);
    && (if all <= asked then moved == all && status == Passed else moved == asked - asked % 64 && status == PhaseError)
    && stalled == (if all == asked then NoDirection else if c.flags >= 0x80 then DirIn else DirOut)
    && |sectors| == (moved + 511) / 512
    && (forall i :: 0 <= i < |sectors| ==> sectors[i] == (((b3 * 256 + b2) * 256 + b1) * 256 + b0 + i) % 0x1_0000_0000)
  }

  /** A fixed response of `length` bytes: as much of it as the host asks for. */
  predicate ResponseMoved(c: Cbw, length: nat, moved: nat, stalled: Direction, status: Status) {
    if c.flags >= 0x80 then
      && moved == (if c.dataTransferLength < length then c.dataTransferLength else length) && status == Passed
      && stalled == (if c.dataTransferLength > length then DirIn else NoDirection)
    else moved == 0 && status == PhaseError && stalled == DirOut
  }

  /** The plan is what the host asks for. */
  lemma PlanIsAsAsked(c: Cbw, ejected: bool)
    requires |c.cb| == 16
    ensures var o := Planned(c, Intended(c, ejected));
      AsAsked(c, ejected, o.moved, o.stall, o.status, Requested(c, o.moved))
  {
    hide Sectors;
    var o := Planned(c, Intended(c, ejected));
    if MovesSectors(c) {
      PlanOfBlocks(c, ejected);
      var b3: int, b2: int, b1: int, b0: int := c.cb[2], c.cb[3], c.cb[4], c.cb[5];
      assert ((b3 * 256 + b2) * 256 + b1) * 256 + b0 == FirstSector(c);
      hide Planned, Intended, FirstSector;
    }
  }

  lemma PlanOfBlocks(c: Cbw, ejected: bool)
    requires |c.cb| == 16 && MovesSectors(c)
    ensures var o := Planned(c, Intended(c, ejected));
      var asked, all := c.dataTransferLength, SECTOR_SIZE * Blocks(c);
      if (c.flags >= 0x80) == (c.cb[0] == READ_10) then
        && (if all <= asked then o.moved == all && o.status == Passed else o.moved == asked - asked % 64 && o.status == PhaseError)
        && o.stall == (if all == asked then NoDirection else HostDirection(c))
      else o == Outcome(0, HostDirection(c), PhaseError)
  {
    hide Blocks;
  }

  // ---- sectors ------------------------------------------------------------------------------------------------

  predicate MovesSectors(cbw: Cbw)
    requires |cbw.cb| == 16
  {
    cbw.cb[0] == READ_10 || cbw.cb[0] == WRITE_10
  }

  /** The length of the chunk that packet i of a stream of `total` bytes asks for or completes, zero if none. */
  function SectorChunk(read: bool, total: nat, i: nat): int {
    if read then EngineSpec.InChunkLength(64 * i, total, SECTOR_SIZE) else EngineSpec.OutChunkLength(64 * i, total, SECTOR_SIZE)
  }

  /** The disk is asked for a sector at the first packet of its eight for a read, and at the last one for a write. */
  lemma SectorChunkAt(read: bool, packets: nat, i: nat)
    requires i < packets && 64 * packets < 0x200_0000
    ensures SectorChunk(read, 64 * packets, i) != 0 <==> if read then i % 8 == 0 else (i + 1) % 8 == 0 || i + 1 == packets
  {
    SectorStream(read, 64 * packets);
    PacketOfSector(i);
    if read { EngineSpec.InLengths(64 * packets, SECTOR_SIZE, i); } else { EngineSpec.OutLengths(64 * packets, SECTOR_SIZE, i); }
    hide EngineSpec.InChunkLength, EngineSpec.OutChunkLength, StreamSpec.ValidTransfer;
  }

  lemma PacketOfSector(i: nat)
    ensures 64 * i % SECTOR_SIZE == 64 * (i % 8) && 64 * (i + 1) % SECTOR_SIZE == 64 * ((i + 1) % 8)
  {
    DivModUnique(64 * i, SECTOR_SIZE, i / 8, 64 * (i % 8));
    DivModUnique(64 * (i + 1), SECTOR_SIZE, (i + 1) / 8, 64 * ((i + 1) % 8));
  }

  /** Sectors asked for by the first i packets of a stream, and of the next one. */
  lemma SectorCounts(i: nat)
    ensures (i + 8) / 8 == (i + 7) / 8 + if i % 8 == 0 then 1 else 0
    ensures (i + 1) / 8 == i / 8 + if (i + 1) % 8 == 0 then 1 else 0
    ensures (64 * i + SECTOR_SIZE - 1) / SECTOR_SIZE == (i + 7) / 8 == i / 8 + if i % 8 == 0 then 0 else 1
  {
    var q, r := i / 8, i % 8;
    DivModUnique(64 * i + 511, SECTOR_SIZE, if r == 0 then q else q + 1, if r == 0 then 511 else 64 * r - 1);
  }

  lemma NextSector(first: Word, n: nat)
    ensures Sectors(first, n + 1) == Sectors(first, n) + [Add(first, n)] && Add(Add(first, n), 1) == Add(first, n + 1)
  {
    var k := (first + n) / 0x1_0000_0000;
    assert Add(first, n) == first + n - 0x1_0000_0000 * k;
    WrapShift(first + n + 1, -k);
  }

  /** Every chunk that a stream of `total` bytes passes to the disk is a whole sector. */
  predicate WholeSectors(read: bool, total: nat) {
    forall i: nat :: i < total / 64 ==> SectorChunk(read, total, i) == 0 || SectorChunk(read, total, i) == SECTOR_SIZE
  }

  /** When the debug assertion of usb_msc.c that a chunk is a sector holds: the host asks for all blocks of the command,
      or the bytes it asks for beyond the last whole sector do not fill a packet. */
  lemma WholeSectorsExact(cbw: Cbw, ejected: bool)
    requires |cbw.cb| == 16 && MovesSectors(cbw) && Planned(cbw, Intended(cbw, ejected)).moved > 0
    ensures WholeSectors(cbw.cb[0] == READ_10, Planned(cbw, Intended(cbw, ejected)).moved) <==>
      SECTOR_SIZE * Blocks(cbw) <= cbw.dataTransferLength || cbw.dataTransferLength % SECTOR_SIZE < 64
  {
    var read, total := cbw.cb[0] == READ_10, Planned(cbw, Intended(cbw, ejected)).moved;
    WholePacketsMoved(cbw, ejected);
    hide Planned, Intended, Blocks, SectorChunk;
    if total % SECTOR_SIZE == 0 {
      forall i: nat | i < total / 64 ensures SectorChunk(read, total, i) == 0 || SectorChunk(read, total, i) == SECTOR_SIZE {
        ChunkOfWholeSectors(read, total, i);
      }
    } else {
      LastChunkIsPartial(read, total);
    }
  }

  /** What moves are whole packets; they are whole sectors under the condition of WholeSectorsExact. */
  lemma WholePacketsMoved(cbw: Cbw, ejected: bool)
    requires |cbw.cb| == 16 && MovesSectors(cbw) && Planned(cbw, Intended(cbw, ejected)).moved > 0
    ensures var total := Planned(cbw, Intended(cbw, ejected)).moved;
      && total % 64 == 0 && total < 0x200_0000
      && (total % SECTOR_SIZE == 0 <==>
            SECTOR_SIZE * Blocks(cbw) <= cbw.dataTransferLength || cbw.dataTransferLength % SECTOR_SIZE < 64)
  {
    RoundedDown(cbw.dataTransferLength);
    assert SECTOR_SIZE * Blocks(cbw) % 64 == 0 && SECTOR_SIZE * Blocks(cbw) % SECTOR_SIZE == 0 by {
      DivModUnique(SECTOR_SIZE * Blocks(cbw), 64, 8 * Blocks(cbw), 0);
      DivModUnique(SECTOR_SIZE * Blocks(cbw), SECTOR_SIZE, Blocks(cbw), 0);
    }
    hide Blocks;
  }

  lemma RoundedDown(n: nat)
    ensures var total := n - n % 64; total % 64 == 0 && (total % SECTOR_SIZE == 0 <==> n % SECTOR_SIZE < 64)
  {
    var q, r := n / SECTOR_SIZE, n % SECTOR_SIZE;
    DivModUnique(n, 64, 8 * q + r / 64, r % 64);
    DivModUnique(n - n % 64, SECTOR_SIZE, q, r - r % 64);
  }

  lemma SectorStream(read: bool, total: nat)
    requires 0 < total < 0x200_0000
    ensures StreamSpec.ValidTransfer(read, total, SECTOR_SIZE)
  {
    assert Pow2(9) == SECTOR_SIZE;
  }

  lemma ChunkOfWholeSectors(read: bool, total: nat, i: nat)
    requires 0 < total < 0x200_0000 && total % SECTOR_SIZE == 0 && i < total / 64
    ensures SectorChunk(read, total, i) == 0 || SectorChunk(read, total, i) == SECTOR_SIZE
  {
    SectorStream(read, total);
    var q, at := 64 * i / SECTOR_SIZE, 64 * i % SECTOR_SIZE;
    assert 64 * i - at + SECTOR_SIZE <= total by {
      assert 64 * i - at == SECTOR_SIZE * q && total == SECTOR_SIZE * (total / SECTOR_SIZE);
    }
    if read { EngineSpec.InLengths(total, SECTOR_SIZE, i); } else { EngineSpec.OutLengths(total, SECTOR_SIZE, i); }
    hide EngineSpec.InChunkLength, EngineSpec.OutChunkLength, StreamSpec.ValidTransfer;
  }

  lemma LastChunkIsPartial(read: bool, total: nat)
    requires 0 < total < 0x200_0000 && total % SECTOR_SIZE != 0 && total % 64 == 0
    ensures !WholeSectors(read, total)
  {
    SectorStream(read, total);
    var start := total - total % SECTOR_SIZE;
    var i := if read then start / 64 else total / 64 - 1;
    assert start % SECTOR_SIZE == 0 && start % 64 == 0 by { StartOfSector(total); }
    EngineSpec.ChunkArithmetic(read, total, SECTOR_SIZE, i);
    assert SectorChunk(read, total, i) == total % SECTOR_SIZE;
  }

  lemma StartOfSector(total: nat)
    ensures var start := total - total % SECTOR_SIZE; start % SECTOR_SIZE == 0 && start % 64 == 0
  {
    var q := total / SECTOR_SIZE;
    DivModUnique(SECTOR_SIZE * q, SECTOR_SIZE, q, 0);
    DivModUnique(SECTOR_SIZE * q, 64, 8 * q, 0);
  }

  /** A read of one block of which the host asks for 100 bytes passes a chunk of 64 bytes to the disk. */
  lemma PartialSectorRead() returns (cbw: Cbw)
    ensures Accepted(31, cbw) && |cbw.cb| == 16 && cbw.cb[0] == READ_10 && Blocks(cbw) == 1 && cbw.dataTransferLength == 100
    ensures Planned(cbw, Intended(cbw, false)).moved == 64
    ensures SectorChunk(true, 64, 0) == 64 && !WholeSectors(true, 64)
  {
    cbw := Cbw(CBW_SIG, 1, 100, 0x80, 0, 10, [READ_10, 0, 0, 0, 0, 0, 0, 0, 1, 0, 0, 0, 0, 0, 0, 0]);
    hide SectorChunk, WholeSectors, EngineSpec.InChunkLength, EngineSpec.OutChunkLength;
    OnePacketStream();
  }

  lemma OnePacketStream()
    ensures SectorChunk(true, 64, 0) == 64 && !WholeSectors(true, 64)
  {
    SectorStream(true, 64);
    EngineSpec.InLengths(64, SECTOR_SIZE, 0);
    hide EngineSpec.InChunkLength, EngineSpec.OutChunkLength, StreamSpec.ValidTransfer;
    assert SectorChunk(true, 64, 0) == 64;
    assert 0 < 64 / 64;
  }
}
