/** The bulk-only mass storage device: command, data, stall and status phases (usb_msc.c). The packet engine under it
    is reduced to what it does for this client: a transfer on a pipe moves its packets in order and completes once. */
module MassStorage {
  import opened Bits
  import opened MscSpec

  /** What runs on a pipe: nothing, the transfer that waits for a command, a one-packet response, a sector stream, or
      the status. `prepared` packets of a stream are filled or handled, `done` have been on the bus. */
  datatype Pipe = Idle | Command | Response(length: nat) | Stream(total: nat, prepared: nat, done: nat) | SendingStatus
  {
    predicate Data() { Response? || Stream? }
  }

  datatype Halt = NotHalted | Halted | HaltedOnCondition

  datatype Sense = Sense(key: nat, asc: nat, ascq: nat)

  const SENSE_OK := Sense(0, 0, 0)
  const NOT_READY := Sense(0x02, 0x3a, 0)
  const ILLEGAL_REQUEST := Sense(0x05, 0x20, 0)

  class Device {
    // _msc_state
    var csw: Csw
    var requestSense: Sense
    var dataPhaseLength: nat
    var stallDirectionBeforeCsw: Direction
    var lba: Word                       // of the next sector of a stream
    var sendCswOnUnstall: bool
    var ejected: bool
    // endpoints; `chained` is what follows the command transfer on the OUT pipe
    var inPipe: Pipe
    var outPipe: Pipe
    var chained: Pipe
    var inHalt: Halt
    var outHalt: Halt
    // what the host and the disk see: bytes of the current command, the pipe whose stall the host had to clear, the sense
    // data last reported, all status wrappers, and the sectors the current command has asked the disk for
    var requests: seq<Word>
    var moved: nat
    var cleared: Direction
    var reported: Sense
    var csws: seq<Csw>
    // the command being worked on
    ghost var pending: bool
    ghost var cbw: Cbw
    ghost var plan: Outcome

    ghost function Residue(n: nat): int
      reads this
    {
      cbw.dataTransferLength - n
    }

    /** A data phase on one pipe: the prepared bytes are already taken off the residue. */
    ghost predicate DataPhase(pipe: Pipe, direction: Direction)
      reads this
    {
      && |cbw.cb| == 16 && stallDirectionBeforeCsw == plan.stall && (plan.stall == NoDirection || plan.stall == direction)
      && plan.moved <= cbw.dataTransferLength
      && match pipe
         case Response(length) =>
           && direction == DirIn && 0 < length == plan.moved && moved == 0 && csw.residue == Residue(length)
           && requests == [] && !MovesSectors(cbw)
         case Stream(total, prepared, done) =>
           && done < total && done <= prepared <= total && prepared <= done + 2 && 64 * total == plan.moved
           && csw.residue == Residue(64 * prepared) && moved == 64 * done && (direction == DirOut ==> prepared == done)
           && MovesSectors(cbw) && 64 * total < 0x200_0000 && lba == Add(FirstSector(cbw), |requests|)
           && requests == Sectors(FirstSector(cbw), if direction == DirIn then (prepared + 7) / 8 else done / 8)
         case _ => false
    }

    /** The data phase is over and the IN pipe is stalled: the status waits for the host to clear it. */
    ghost predicate StalledIn(out: Pipe)
      reads this
    {
      && inPipe == Idle && inHalt == Halted && sendCswOnUnstall && outHalt == NotHalted && out == Idle
      && plan.stall == DirIn && cleared == NoDirection
    }

    /** The data phase is over and the status waits for the host to read it. */
    ghost predicate StatusReady(out: Pipe)
      reads this
    {
      && inPipe == SendingStatus && inHalt == NotHalted && !sendCswOnUnstall
      && (if outHalt == NotHalted then out == Idle || out == Command else out == Idle)
      && StalledAsPlanned()
    }

    /** The stall of the plan has happened: the host has cleared it, or the OUT pipe still shows it. */
    ghost predicate StalledAsPlanned()
      reads this
    {
      if outHalt == NotHalted then cleared == plan.stall
      else outHalt == Halted && plan.stall == DirOut && cleared == NoDirection
    }

    /** The stages of a command, each with what the residue is. */
    ghost predicate Working(out: Pipe)
      reads this
    {
      && csw.tag == cbw.tag && csw.status == plan.status && |cbw.cb| == 16
      && if inPipe.Data() || out.Data() then
           && !sendCswOnUnstall && inHalt == NotHalted && outHalt == NotHalted && cleared == NoDirection
           && (if inPipe.Data() then DataPhase(inPipe, DirIn) && out == Idle else DataPhase(out, DirOut) && inPipe == Idle)
         else
           && moved == plan.moved <= cbw.dataTransferLength && csw.residue == Residue(moved)
           && requests == Requested(cbw, moved) && stallDirectionBeforeCsw == NoDirection
           && (StalledIn(out) || StatusReady(out))
    }

    /** Between commands: waiting for one, unless the OUT pipe is still stalled. */
    ghost predicate Quiet()
      reads this
    {
      && inPipe == Idle && inHalt == NotHalted && !sendCswOnUnstall && stallDirectionBeforeCsw == NoDirection
      && (if outHalt == NotHalted then outPipe == Command else outPipe == Idle)
      && StalledAsPlanned()
    }

    ghost predicate Valid()
      reads this
    {
      if pending then Working(outPipe) else Quiet()
    }

    /** What is left of a command: packets to prepare and to move, clearing the stall, the status. */
    ghost function Steps(): nat
      reads this
    {
      match if inPipe == Idle then outPipe else inPipe
      case Response(_) => 3
      case Stream(total, prepared, done) =>
        (if total >= done && total >= prepared then (total - done) + (total - prepared) else 0) + 2
      case SendingStatus => 1
      case _ => 2
    }

    // ---- the driver ---------------------------------------------------------------------------------------

    /** Waiting for a first command. */
    constructor ()
      ensures Quiet() && outPipe == Command && !pending && csws == [] && !ejected && requestSense == SENSE_OK
    {
      csw, requestSense, reported := Csw(0, 0, Passed), SENSE_OK, SENSE_OK;
      dataPhaseLength, stallDirectionBeforeCsw, sendCswOnUnstall, ejected := 0, NoDirection, false, false;
      inPipe, outPipe, chained, inHalt, outHalt := Idle, Command, Idle, NotHalted, NotHalted;
      moved, cleared, csws, pending, lba, requests := 0, NoDirection, [], false, 0, [];
      cbw, plan := Cbw(0, 0, 0, 0, 0, 0, []), Outcome(0, NoDirection, Passed);
    }

    /** _msc_send_csw */
    method SendCsw()
      modifies this`sendCswOnUnstall, this`inPipe
      ensures !sendCswOnUnstall && inPipe == SendingStatus
    {
      sendCswOnUnstall := false;
      inPipe := SendingStatus;
    }

    /** _msc_data_phase_complete */
    method DataPhaseComplete()
      requires inHalt == NotHalted && outHalt == NotHalted && inPipe == Idle && !sendCswOnUnstall && cleared == NoDirection
      requires stallDirectionBeforeCsw == plan.stall && csw.tag == cbw.tag && csw.status == plan.status
      requires moved == plan.moved <= cbw.dataTransferLength && csw.residue == Residue(moved)
      requires |cbw.cb| == 16 && requests == Requested(cbw, moved)
      modifies this`stallDirectionBeforeCsw, this`sendCswOnUnstall, this`inHalt, this`outHalt, this`inPipe
      ensures Working(Idle) && !inPipe.Data()
    {
      if stallDirectionBeforeCsw == DirIn {
        stallDirectionBeforeCsw := NoDirection;
        sendCswOnUnstall := true;
        inHalt := Halted;
      } else {
        if stallDirectionBeforeCsw == DirOut {
          stallDirectionBeforeCsw := NoDirection;
          outHalt := Halted;
        }
        SendCsw();
      }
    }

    /** A command was accepted and nothing has been done about its data. */
    ghost predicate Starting(c: Cbw)
      reads this
    {
      && cbw == c && |c.cb| == 16 && requests == [] && csw.tag == c.tag && csw.residue == c.dataTransferLength && moved == 0
      && inHalt == NotHalted && outHalt == NotHalted && inPipe == Idle && chained == Idle && !sendCswOnUnstall
      && cleared == NoDirection
    }

    /** _msc_init_for_dn: no data; what the host expects is stalled. */
    method InitForDn(c: Cbw)
      requires Starting(c) && plan == Planned(c, NoData(csw.status == Passed)) && csw.status != PhaseError
      modifies this`stallDirectionBeforeCsw, this`sendCswOnUnstall, this`inHalt, this`outHalt, this`inPipe
      ensures Working(chained)
    {
      stallDirectionBeforeCsw := NoDirection;
      if c.dataTransferLength != 0 {
        stallDirectionBeforeCsw := HostDirection(c);
      }
      DataPhaseComplete();
    }

    /** _scsi_fail_cmd */
    method FailCmd(c: Cbw, sense: Sense)
      requires Starting(c) && plan == Planned(c, NoData(false))
      modifies this`csw, this`requestSense, this`stallDirectionBeforeCsw, this`sendCswOnUnstall, this`inHalt, this`outHalt, this`inPipe
      ensures Working(chained) && requestSense == sense
    {
      csw := csw.(status := Failed);
      requestSense := sense;
      InitForDn(c);
    }

    /** _msc_init_for_di_or_do: whether there is data to move. */
    method InitForDiOrDo(c: Cbw, expectedLength: nat, direction: Direction) returns (go: bool)
      requires Starting(c) && csw.status == Passed && direction != NoDirection
      requires plan == Planned(c, Data(direction, expectedLength))
      modifies this`csw, this`dataPhaseLength, this`stallDirectionBeforeCsw, this`sendCswOnUnstall, this`inHalt, this`outHalt, this`inPipe
      ensures csw.tag == cbw.tag && csw.status == plan.status
      ensures if go then
          && Starting(c) && direction == HostDirection(c) && stallDirectionBeforeCsw == plan.stall
          && 0 < dataPhaseLength <= expectedLength && dataPhaseLength <= c.dataTransferLength
          && (plan.stall == NoDirection || plan.stall == direction)
          && plan.moved == (if dataPhaseLength == expectedLength then dataPhaseLength else dataPhaseLength - dataPhaseLength % 64)
        else Working(chained)
    {
      stallDirectionBeforeCsw := NoDirection;
      dataPhaseLength := 0;
      var cbwDir := HostDirection(c);
      if cbwDir != direction {
        stallDirectionBeforeCsw := cbwDir;
        csw := csw.(status := PhaseError);
      } else {
        if expectedLength != c.dataTransferLength {
          stallDirectionBeforeCsw := direction;
        }
        if expectedLength > c.dataTransferLength {
          csw := csw.(status := PhaseError);
        }
        dataPhaseLength := if expectedLength < c.dataTransferLength then expectedLength else c.dataTransferLength;
      }
      if dataPhaseLength == 0 {
        DataPhaseComplete();
        return false;
      }
      return true;
    }

    /** _scsi_standard_response with `length` bytes in the packet buffer. */
    method StandardResponse(c: Cbw, length: nat)
      requires Starting(c) && csw.status == Passed && plan == Planned(c, MscSpec.Response(length, c)) && length > 0
      requires !MovesSectors(c)
      modifies this`csw, this`dataPhaseLength, this`stallDirectionBeforeCsw, this`sendCswOnUnstall, this`inHalt, this`outHalt, this`inPipe
      ensures Working(chained)
    {
      var expected := if length < c.dataTransferLength then length else c.dataTransferLength;
      var go := InitForDiOrDo(c, expected, DirIn);
      if go {
        csw := csw.(residue := csw.residue - dataPhaseLength);
        inPipe := Response(dataPhaseLength);
      }
    }

    /** _scsi_read_or_write_blocks */
    method ReadOrWriteBlocks(c: Cbw, first: Word, blocks: nat, direction: Direction)
      requires Starting(c) && csw.status == Passed && direction != NoDirection && blocks < 0x1_0000
      requires plan == Planned(c, Data(direction, SECTOR_SIZE * blocks)) && MovesSectors(c) && first == FirstSector(c)
      modifies this`lba, this`csw, this`dataPhaseLength, this`stallDirectionBeforeCsw, this`sendCswOnUnstall, this`inHalt, this`outHalt, this`inPipe, this`chained
      ensures Working(chained)
    {
      lba := first;
      assert Add(first, 0) == first && Sectors(first, 0) == [];
      var go := InitForDiOrDo(c, blocks * SECTOR_SIZE, direction);
      if go {
        WholePackets(dataPhaseLength, blocks);
        var packets := dataPhaseLength / 64;
        if packets != 0 {
          if direction == DirIn {
            inPipe := Stream(packets, 0, 0);
          } else {
            chained := Stream(packets, 0, 0);
          }
        } else {
          DataPhaseComplete();
        }
      }
    }

    /** _msc_cmd_packet: a packet of `length` bytes arrives for the command transfer. */
    method CommandPacket(length: nat, c: Cbw)
      requires Valid() && !pending && outPipe == Command && |c.cb| == 16
      modifies this
      ensures csws == old(csws)
      ensures Accepted(length, c) ==>
        Valid() && pending && cbw == c && plan == Planned(c, Intended(c, old(ejected)))
      ensures !Accepted(length, c) ==> !pending && Refused() && ejected == old(ejected)
      ensures pending <==> length == 31 && c.sig == 0x4342_5355 && c.lun == 0 && c.flags in {0, 0x80} && 1 <= c.cbLength <= 16
      ensures Accepted(length, c) ==> ejected == (old(ejected) || (c.cb[0] == START_STOP_UNIT && c.cb[4] % 4 == 2))
      ensures Accepted(length, c) ==>
        requestSense == (if IntendedFailure(c, old(ejected)) then (if c.cb[0] == TEST_UNIT_READY then NOT_READY else ILLEGAL_REQUEST)
                         else SENSE_OK)
      ensures Accepted(length, c) && c.cb[0] == REQUEST_SENSE ==> reported == old(requestSense)
    {
      hide Planned, IntendedFailure;
      if Accepted(length, c) {
        Accept(c);
      } else {
        inHalt, outHalt := HaltedOnCondition, HaltedOnCondition;
        outPipe := Idle;
      }
    }

    /** An accepted wrapper: the status is prepared, the command dispatched, and the command transfer ends. */
    method Accept(c: Cbw)
      requires Quiet() && outPipe == Command && |c.cb| == 16
      modifies this
      ensures csws == old(csws) && Working(outPipe) && pending && cbw == c && plan == Planned(c, Intended(c, old(ejected)))
      ensures ejected == (old(ejected) || (c.cb[0] == START_STOP_UNIT && c.cb[4] % 4 == 2))
      ensures requestSense == (if IntendedFailure(c, old(ejected)) then (if c.cb[0] == TEST_UNIT_READY then NOT_READY else ILLEGAL_REQUEST)
                               else SENSE_OK)
      ensures c.cb[0] == REQUEST_SENSE ==> reported == old(requestSense)
    {
      hide Planned, IntendedFailure, Intended;
      Begin(c);
      var cmd := c.cb[0];
      if cmd != REQUEST_SENSE { requestSense := SENSE_OK; }
      Dispatch(c, cmd);
      outPipe := chained;
    }

    /** The status wrapper of a new command, with nothing moved. */
    method Begin(c: Cbw)
      requires Quiet() && outPipe == Command && |c.cb| == 16
      modifies this`csw, this`moved, this`requests, this`cleared, this`chained, this`pending, this`cbw, this`plan
      ensures Starting(c) && csw.status == Passed && pending && plan == Planned(c, Intended(c, ejected))
    {
      hide Planned, Intended;
      pending, cbw, plan := true, c, Planned(c, Intended(c, ejected));
      moved, requests, cleared, chained := 0, [], NoDirection, Idle;
      csw := Csw(c.tag, c.dataTransferLength, Passed);
    }

    /** The switch over the SCSI command. */
    method Dispatch(c: Cbw, cmd: Byte)
      requires |c.cb| == 16 && cmd == c.cb[0] && Starting(c) && csw.status == Passed
      requires plan == Planned(c, Intended(c, ejected)) && (cmd != REQUEST_SENSE ==> requestSense == SENSE_OK)
      modifies this`csw, this`dataPhaseLength, this`stallDirectionBeforeCsw, this`sendCswOnUnstall, this`inHalt, this`outHalt
      modifies this`inPipe, this`chained, this`requestSense, this`ejected, this`reported, this`lba
      ensures Working(chained) && ejected == (old(ejected) || (cmd == START_STOP_UNIT && c.cb[4] % 4 == 2))
      ensures requestSense == (if IntendedFailure(c, old(ejected)) then (if cmd == TEST_UNIT_READY then NOT_READY else ILLEGAL_REQUEST)
                               else SENSE_OK)
      ensures cmd == REQUEST_SENSE ==> reported == old(requestSense)
    {
      if cmd == INQUIRY {
        StandardResponse(c, 36);
      } else if cmd == MODE_SENSE_6 {
        StandardResponse(c, 4);
      } else if cmd == READ_10 {
        ReadOrWriteBlocks(c, FirstSector(c), Blocks(c), DirIn);
      } else if cmd == WRITE_10 {
        ReadOrWriteBlocks(c, FirstSector(c), Blocks(c), DirOut);
      } else if cmd == READ_FORMAT_CAPACITIES {
        StandardResponse(c, 12);
      } else if cmd == READ_CAPACITY_10 {
        StandardResponse(c, 8);
      } else if cmd == REQUEST_SENSE {
        reported := requestSense;
        requestSense := SENSE_OK;
        StandardResponse(c, 18);
      } else if cmd == TEST_UNIT_READY {
        if ejected {
          FailCmd(c, NOT_READY);
        } else {
          InitForDn(c);
        }
      } else if cmd == START_STOP_UNIT {
        if c.cb[4] % 4 == 2 { ejected := true; }
        InitForDn(c);
      } else if cmd == PREVENT_ALLOW_MEDIUM_REMOVAL || cmd == SYNCHRONIZE_CACHE || cmd == VERIFY {
        InitForDn(c);
      } else {
        FailCmd(c, ILLEGAL_REQUEST);
      }
    }

    // ---- events ---------------------------------------------------------------------------------------------

    /** on_packet_complete of an IN stream: a packet is filled ahead of the bus, at most two of them. */
    method PrepareIn()
      requires Valid() && pending && inPipe.Stream? && inPipe.prepared < inPipe.total && inPipe.prepared < inPipe.done + 2
      modifies this`csw, this`inPipe, this`lba, this`requests
      ensures Valid() && Steps() < old(Steps())
    {
      hide Sectors, FirstSector, SectorChunk, Requested, MovesSectors, Add;
      StreamPacket(true, inPipe.total, inPipe.prepared);
      csw := csw.(residue := csw.residue - 64);
      inPipe := inPipe.(prepared := inPipe.prepared + 1);
    }

    /** Packet i of a sector stream: at the start of a sector for a read, and at its end for a write, the disk is asked. */
    method StreamPacket(read: bool, packets: nat, i: nat)
      requires i < packets && 64 * packets < 0x200_0000 && |cbw.cb| == 16 && lba == Add(FirstSector(cbw), |requests|)
      requires requests == Sectors(FirstSector(cbw), if read then (i + 7) / 8 else i / 8)
      modifies this`lba, this`requests
      ensures lba == Add(FirstSector(cbw), |requests|)
      ensures requests == Sectors(FirstSector(cbw),
        if read then (i + 8) / 8 else if i + 1 == packets then (64 * packets + SECTOR_SIZE - 1) / SECTOR_SIZE else (i + 1) / 8)
    {
      hide Sectors, FirstSector, SectorChunk, Add;
      SectorCounts(i);
      SectorCounts(packets);
      SectorChunkAt(read, packets, i);
      if SectorChunk(read, 64 * packets, i) != 0 { RequestSector(); }
    }

    /** _msc_on_sector_stream_chunk: the disk is asked for the next sector. */
    method RequestSector()
      requires |cbw.cb| == 16 && lba == Add(FirstSector(cbw), |requests|) && requests == Sectors(FirstSector(cbw), |requests|)
      modifies this`lba, this`requests
      ensures lba == Add(FirstSector(cbw), |requests|) && requests == Sectors(FirstSector(cbw), |old(requests)| + 1)
    {
      NextSector(FirstSector(cbw), |requests|);
      requests := requests + [lba];
      lba := Add(lba, 1);
    }

    /** The host reads a data packet. */
    method SendData()
      requires Valid() && pending && (inPipe.Response? || (inPipe.Stream? && inPipe.done < inPipe.prepared))
      modifies this`moved, this`inPipe, this`stallDirectionBeforeCsw, this`sendCswOnUnstall, this`inHalt, this`outHalt
      ensures Valid() && Steps() < old(Steps()) && moved > old(moved)
    {
      hide Sectors, FirstSector, MovesSectors, Add;
      if inPipe.Stream? { SectorCounts(inPipe.total); }
      if inPipe.Response? {
        moved := moved + inPipe.length;
        inPipe := Idle;
        DataPhaseComplete();
      } else {
        moved := moved + 64;
        inPipe := inPipe.(done := inPipe.done + 1);
        if inPipe.done == inPipe.total {
          inPipe := Idle;
          DataPhaseComplete();
        }
      }
    }

    /** The host writes a data packet. */
    method ReceiveData()
      requires Valid() && pending && outPipe.Stream?
      modifies this`moved, this`csw, this`outPipe, this`inPipe, this`stallDirectionBeforeCsw, this`sendCswOnUnstall, this`inHalt, this`outHalt
      modifies this`lba, this`requests
      ensures Valid() && Steps() < old(Steps()) && moved > old(moved)
    {
      hide Sectors, FirstSector, SectorChunk, MovesSectors, Add;
      StreamPacket(false, outPipe.total, outPipe.done);
      moved := moved + 64;
      csw := csw.(residue := csw.residue - 64);
      outPipe := Stream(outPipe.total, outPipe.prepared + 1, outPipe.done + 1);
      if outPipe.done == outPipe.total {
        outPipe := Idle;
        DataPhaseComplete();
      }
    }

    /** The host reads the status; _tf_wait_command lets the OUT pipe wait for a command again. */
    method SendStatus()
      requires Valid() && pending && inPipe == SendingStatus
      modifies this`csws, this`inPipe, this`outPipe, this`pending
      ensures Valid() && !pending
      ensures csws == old(csws) + [Csw(cbw.tag, cbw.dataTransferLength - plan.moved, plan.status)] && moved == plan.moved
      ensures plan == old(plan) && StalledAsPlanned() && |cbw.cb| == 16 && requests == Requested(cbw, plan.moved)
    {
      csws := csws + [csw];
      pending := false;
      inPipe := Idle;
      if outPipe == Idle && outHalt == NotHalted { outPipe := Command; }
    }

    /** CLEAR_FEATURE(ENDPOINT_HALT) for the stalled IN pipe; _msc_in_on_stall_change sends a status that waits. */
    method ClearHaltIn()
      requires (Valid() && inHalt == Halted) || Refused()
      modifies this`inHalt, this`inPipe, this`sendCswOnUnstall, this`cleared
      ensures if old(inHalt) == HaltedOnCondition then unchanged(this)
              else Valid() && Steps() < old(Steps()) && cleared == DirIn
    {
      if inHalt != HaltedOnCondition {
        cleared := DirIn;
        inPipe := Idle;
        inHalt := NotHalted;
        if sendCswOnUnstall { SendCsw(); }
      }
    }

    /** CLEAR_FEATURE(ENDPOINT_HALT) for the stalled OUT pipe; its default transfer starts again. */
    method ClearHaltOut()
      requires (Valid() && outHalt == Halted) || Refused()
      modifies this`outHalt, this`outPipe, this`cleared
      ensures if old(outHalt) == HaltedOnCondition then unchanged(this)
              else Valid() && outHalt == NotHalted && outPipe == Command && Steps() <= old(Steps()) && cleared == DirOut
    {
      if outHalt != HaltedOnCondition {
        cleared := DirOut;
        outHalt := NotHalted;
        outPipe := Command;
      }
    }

    /** After an invalid wrapper both pipes stay stalled until a reset. */
    ghost predicate Refused()
      reads this
    {
      inHalt == HaltedOnCondition && outHalt == HaltedOnCondition && inPipe == Idle && outPipe == Idle
    }

    /** The class-specific reset: _msc_reset on both pipes. */
    method MassStorageReset()
      modifies this
      ensures Valid() && !pending && outPipe == Command && csws == old(csws) && !ejected && requestSense == SENSE_OK
    {
      csw, requestSense := Csw(0, 0, Passed), SENSE_OK;
      dataPhaseLength, stallDirectionBeforeCsw, sendCswOnUnstall, ejected := 0, NoDirection, false, false;
      ResetPipes();
    }

    /** usb_soft_reset_endpoint on both pipes; the command transfer starts again. */
    method ResetPipes()
      requires stallDirectionBeforeCsw == NoDirection && !sendCswOnUnstall
      modifies this`inPipe, this`outPipe, this`chained, this`inHalt, this`outHalt, this`moved, this`cleared, this`pending, this`plan
      ensures Valid() && !pending && outPipe == Command
    {
      inPipe, inHalt := Idle, NotHalted;
      outPipe, chained, outHalt := Command, Idle, NotHalted;
      moved, cleared, pending, plan := 0, NoDirection, false, Outcome(0, NoDirection, Passed);
    }
  }

  /** Sectors are whole packets. */
  lemma WholePackets(length: nat, blocks: nat)
    ensures 64 * (length / 64) == length - length % 64
    ensures length == SECTOR_SIZE * blocks ==> length % 64 == 0
  {
    DivModUnique(SECTOR_SIZE * blocks, 64, 8 * blocks, 0);
  }

  /** The command fails before any data: the medium was ejected, or the command is not known. */
  predicate IntendedFailure(c: Cbw, ejected: bool)
    requires |c.cb| == 16
  {
    Intended(c, ejected) == NoData(false)
  }

  // ---- the host -------------------------------------------------------------------------------------------------

  /** A status wrapper, a number of bytes moved and a pipe found stalled that are right for a command. */
  ghost predicate Answers(csw: Csw, moved: nat, stalled: Direction, c: Cbw, ejected: bool)
    requires |c.cb| == 16
  {
    && Outcome(moved, stalled, csw.status) == Planned(c, Intended(c, ejected))
    && csw.tag == c.tag && moved <= c.dataTransferLength && csw.residue == c.dataTransferLength - moved
  }

  predicate Ejects(c: Cbw)
    requires |c.cb| == 16
  {
    c.cb[0] == START_STOP_UNIT && c.cb[4] % 4 == 2
  }

  /** The sense data after a command: cleared, unless the command fails because the medium was ejected or because it is
      not known; REQUEST SENSE reports what the command before left. */
  ghost predicate SenseAsAsked(c: Cbw, ejected: bool, before: Sense, after: Sense, reported: Sense)
    requires |c.cb| == 16
  {
    var op := c.cb[0];
    && after == (if op == 0x00 && ejected then Sense(0x02, 0x3a, 0)
                 else if op in {0x12, 0x1a, 0x1e, 0x28, 0x2a, 0x23, 0x25, 0x03, 0x00, 0x1b, 0x35, 0x2f} then Sense(0, 0, 0)
                 else Sense(0x05, 0x20, 0))
    && (op == 0x03 ==> reported == before)
  }

  /** A host that sends one command, moves data, clears stalls and reads status in whatever order the device lets it,
      until it has the status; it clears a stalled OUT pipe before it goes on. */
  method RunCommand(device: Device, c: Cbw)
    returns (moved: nat, stalled: Direction, csw: Csw, sectors: seq<Word>)
    requires device.Valid() && !device.pending && device.outPipe == Command && Accepted(31, c) && |c.cb| == 16
    modifies device
    ensures device.Valid() && !device.pending && device.outPipe == Command && device.csws == old(device.csws) + [csw]
    ensures Answers(csw, moved, stalled, c, old(device.ejected)) && device.ejected == (old(device.ejected) || Ejects(c))
    ensures MeetsThirteenCases(c, Intended(c, old(device.ejected)), Outcome(moved, stalled, csw.status))
            <==> !EmptyInWrongDirection(c, Intended(c, old(device.ejected)))
    ensures AsAsked(c, old(device.ejected), moved, stalled, csw.status, sectors)
    ensures SenseAsAsked(c, old(device.ejected), old(device.requestSense), device.requestSense, device.reported)
    ensures device.ejected == (old(device.ejected) || (c.cb[0] == 0x1b && c.cb[4] % 4 == 2))
  {
    PlanCompliant(c, device.ejected);
    PlanIsAsAsked(c, device.ejected);
    hide Device.Valid, Device.Steps, Planned, MeetsThirteenCases, Requested, AsAsked;
    device.CommandPacket(31, c);
    assert SenseAsAsked(c, old(device.ejected), old(device.requestSense), device.requestSense, device.reported);
    ghost var sense, reported := device.requestSense, device.reported;
    hide Intended, SenseAsAsked;
    ghost var csws, plan, ejected := device.csws, device.plan, device.ejected;
    var waiting := true;
    while waiting
      invariant device.Valid() && device.ejected == ejected && device.pending == waiting
      invariant device.pending ==> device.csws == csws && device.cbw == c && device.plan == plan
      invariant !device.pending ==> device.moved == plan.moved <= c.dataTransferLength
      invariant !device.pending ==> device.plan == plan && device.StalledAsPlanned() && device.requests == Requested(c, plan.moved)
      invariant device.requestSense == sense && device.reported == reported
      invariant !device.pending ==> device.csws == csws + [Csw(c.tag, c.dataTransferLength - plan.moved, plan.status)]
      decreases waiting, device.Steps(), device.outHalt == Halted
    {
      waiting := HostStep(device);
    }
    if device.outHalt == Halted { device.ClearHaltOut(); }
    QuietDevice(device);
    moved, stalled, csw, sectors := device.moved, device.cleared, device.csws[|device.csws| - 1], device.requests;
  }

  lemma QuietDevice(device: Device)
    requires device.Valid() && !device.pending && device.outHalt == NotHalted
    ensures device.outPipe == Command && device.cleared == device.plan.stall
  {
  }

  /** One event of a command that is not finished, as the host may choose it. */
  method HostStep(device: Device) returns (waiting: bool)
    requires device.Valid() && device.pending
    modifies device
    ensures device.Valid() && device.ejected == old(device.ejected) && waiting == device.pending
    ensures device.requestSense == old(device.requestSense) && device.reported == old(device.reported)
    ensures device.pending ==>
      && device.csws == old(device.csws) && device.cbw == old(device.cbw) && device.plan == old(device.plan)
      && (device.Steps() < old(device.Steps())
          || (device.Steps() == old(device.Steps()) && old(device.outHalt) == Halted && device.outHalt == NotHalted))
    ensures !device.pending ==>
      var c, plan := old(device.cbw), old(device.plan);
      && device.csws == old(device.csws) + [Csw(c.tag, c.dataTransferLength - plan.moved, plan.status)]
      && device.moved == plan.moved <= c.dataTransferLength && device.plan == plan && device.StalledAsPlanned()
      && |c.cb| == 16 && device.requests == Requested(c, plan.moved)
  {
    hide Requested, Sectors, FirstSector, MovesSectors, Add;
    var other: bool := *;
    waiting := true;
    if device.outHalt == Halted && other {
      device.ClearHaltOut();
    } else if device.inPipe == SendingStatus {
      device.SendStatus();
      waiting := false;
    } else if device.inHalt == Halted {
      device.ClearHaltIn();
    } else if device.outPipe.Stream? {
      device.ReceiveData();
    } else if device.inPipe.Response? || (device.inPipe.Stream? && device.inPipe.done < device.inPipe.prepared
                                          && (other || device.inPipe.prepared == device.inPipe.total
                                              || device.inPipe.prepared == device.inPipe.done + 2)) {
      device.SendData();
    } else {
      device.PrepareIn();
    }
  }

  /** The medium has been ejected by one of the first n commands. */
  ghost predicate EjectedBefore(commands: seq<Cbw>, n: nat)
    requires n <= |commands| && forall i :: 0 <= i < |commands| ==> |commands[i].cb| == 16
  {
    exists i :: 0 <= i < n && Ejects(commands[i])
  }

  /** A session: every command gets exactly one status, in order, with its tag, its residue, and the bytes, the stall, the
      status and the sectors the host asks for. */
  method RunSession(commands: seq<Cbw>) 
    returns (csws: seq<Csw>, moved: seq<nat>, stalled: seq<Direction>, sectors: seq<seq<Word>>)
    requires forall i :: 0 <= i < |commands| ==> Accepted(31, commands[i]) && |commands[i].cb| == 16
    ensures |csws| == |moved| == |stalled| == |sectors| == |commands|
    ensures forall i :: 0 <= i < |commands| ==>
      Answers(csws[i], moved[i], stalled[i], commands[i], EjectedBefore(commands, i))
    ensures forall i :: 0 <= i < |commands| ==>
      AsAsked(commands[i], EjectedBefore(commands, i), moved[i], stalled[i], csws[i].status, sectors[i])
  {
    hide Answers, AsAsked, SenseAsAsked, Device.Valid, Ejects;
    var device := new Device();
    device.MassStorageReset();
    moved, stalled, sectors := [], [], [];
    for i := 0 to |commands|
      invariant fresh(device) && device.Valid() && !device.pending && device.outPipe == Command
      invariant |device.csws| == |moved| == |stalled| == |sectors| == i && device.ejected == EjectedBefore(commands, i)
      invariant forall j :: 0 <= j < i ==>
        Answers(device.csws[j], moved[j], stalled[j], commands[j], EjectedBefore(commands, j))
      invariant forall j :: 0 <= j < i ==>
        AsAsked(commands[j], EjectedBefore(commands, j), moved[j], stalled[j], device.csws[j].status, sectors[j])
    {
      var n, stall, csw, asked := RunCommand(device, commands[i]);
      moved, stalled, sectors := moved + [n], stalled + [stall], sectors + [asked];
    }
    csws := device.csws;
  }
}
