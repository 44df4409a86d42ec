/** The state of an endpoint with its running stream transfer, its invariant, and the elementary steps the
    engine is made of, each with what it keeps. */
module EngineState {
  import opened Bits
  import opened StreamSpec
  import opened EngineSpec

  /** ep->current_hw_buffer: the packet buffer the software is working on. */
  datatype HwBuffer = HwBuffer(valid: bool, slot: nat, len: nat)

  /** An asynchronous task: where in memory, and how many bytes. */
  datatype Task = Task(address: int, length: nat)

  /** Where control is between two quiescent points; every count is zero when quiescent.
      handling: a completed packet is being processed and not yet taken off remaining_packets_to_handle.
      waiting:  a completed OUT packet has not yet been passed to on_packet.
      advanced: the stream offset already covers the outstanding packet.
      giving:   an IN packet is filled but not yet given to the hardware.
      limbo:    a completed buffer is not yet counted as owned. */
  datatype Phase = Phase(handling: nat, waiting: nat, advanced: nat, giving: nat, limbo: nat)

  const QUIET := Phase(0, 0, 0, 0, 0)

  /** Struct usb_endpoint. */
  datatype UsbEp = UsbEp(isIn: bool, doubleBuffered: bool, nextPid: nat, ownedBufferCount: nat,
    currentGiveBuffer: nat, currentTakeBuffer: nat, halted: bool, firstBufferAfterReset: bool, buffer:
    HwBuffer, running: bool)

  /** Struct usb_stream_transfer with its struct usb_transfer. */
  datatype UsbTransfer = UsbTransfer(toSubmit: nat, toHandle: nat, outstandingPacket: bool, packetQueued:
    bool, completed: bool, offset: nat, transferLength: nat, chunkSize: nat, chunkBuffer: seq<Byte>,
    completeExpected: bool)

  /** PICOBOOT's task, the one-slot mailbox, and the worker's copy of the task it is running. */
  datatype TaskQueue = TaskQueue(picoboot: bool, taskAddress: int, mailbox: seq<Task>, working: seq<Task>)

  /** The AVAIL bits, the packet memory, the FULL bits and the data PIDs (whether DATA1) of both buffers; the hardware's
      own buffer selector, and the data PID the host goes on with. */
  datatype Hardware = Hardware(available: seq<bool>, slotData: seq<seq<Byte>>, full: seq<bool>, data1: seq<bool>,
    selector: nat, hostData1: bool)

  /** The hardware can move a packet: it looks only at the selected buffer, takes it if it is available, with data for
      IN and empty for OUT, and the host accepts only the data PID it expects. */
  predicate CanMove(ep: UsbEp, hw: Hardware) {
    && |hw.available| == |hw.full| == |hw.data1| == 2 && hw.selector < 2
    && var which := Selected(ep.doubleBuffered, hw.selector);
       hw.available[which] && hw.full[which] == ep.isIn && hw.data1[which] == hw.hostData1
  }

  /** The sender's bytes, and what observers see: the bus, the client's chunks and tasks, calls of on_packet and
      on_complete. */
  datatype Log = Log(stream: seq<Byte>, wire: seq<Byte>, chunks: seq<Chunk>, tasks: seq<Task>, onPacketCalls:
    nat, completions: nat)

  /** History: the buffer of packet 0, packets completed by the hardware and finished by the client in this
      transfer, packets completed since the last hard reset, address of the first task. */
  datatype History = History(base: nat, hwDone: nat, packetsDone: nat, acked: nat, firstAddress: int)

  datatype State = State(ep: UsbEp, tr: UsbTransfer, pb: TaskQueue, hw: Hardware, log: Log, hist: History)
  {
    const isIn := ep.isIn
    const doubleBuffered := ep.doubleBuffered
    const nextPid := ep.nextPid
    const ownedBufferCount := ep.ownedBufferCount
    const currentGiveBuffer := ep.currentGiveBuffer
    const currentTakeBuffer := ep.currentTakeBuffer
    const halted := ep.halted
    const firstBufferAfterReset := ep.firstBufferAfterReset
    const buffer := ep.buffer
    const running := ep.running
    const toSubmit := tr.toSubmit
    const toHandle := tr.toHandle
    const outstandingPacket := tr.outstandingPacket
    const packetQueued := tr.packetQueued
    const completed := tr.completed
    const offset := tr.offset
    const transferLength := tr.transferLength
    const chunkSize := tr.chunkSize
    const chunkBuffer := tr.chunkBuffer
    const completeExpected := tr.completeExpected
    const picoboot := pb.picoboot
    const taskAddress := pb.taskAddress
    const mailbox := pb.mailbox
    const working := pb.working
    const available := hw.available
    const slotData := hw.slotData
    const full := hw.full
    const data1 := hw.data1
    const selector := hw.selector
    const hostData1 := hw.hostData1
    const stream := log.stream
    const wire := log.wire
    const chunks := log.chunks
    const tasks := log.tasks
    const onPacketCalls := log.onPacketCalls
    const completions := log.completions
    const base := hist.base
    const hwDone := hist.hwDone
    const packetsDone := hist.packetsDone
    const acked := hist.acked
    const firstAddress := hist.firstAddress

    function Slot(i: int): (s: nat)
      ensures s < 2
    {
      SlotOf(doubleBuffered, base, i)
    }

    function Total(): nat { (|stream| + 63) / 64 }

    function Given(): int { Total() - toSubmit }

    function Held(): int { Given() - hwDone }

    function Outstanding(): nat { if outstandingPacket then 1 else 0 }

    function Queued(): nat { if packetQueued then 1 else 0 }

    /** The bytes of packet i, empty beyond the end. */
    function PacketData(i: nat): seq<Byte> {
      if 64 * i < |stream| then Packet(stream, i) else []
    }

    ghost predicate Shape() {
      && running && !completed && !halted && completions == 0
      && |available| == 2 && |slotData| == 2 && |chunkBuffer| == chunkSize && base < 2 && nextPid < 2 && currentGiveBuffer < 2
      && transferLength == |stream| && ValidStream(isIn, doubleBuffered, |stream|, chunkSize)
    }

    /** Every packet is in exactly one place. */
    ghost predicate Counts(ph: Phase) {
      && ownedBufferCount + Held() + ph.limbo == BufferCount(doubleBuffered)
      && Outstanding() + Queued() + ph.giving + ph.waiting <= ownedBufferCount + ph.limbo && 0 <= Held()
      && toHandle == Total() - hwDone + Queued() + ph.handling && toHandle <= Total()
      && (packetQueued ==> doubleBuffered)
      && (if isIn then packetsDone == Given() + ph.giving
          else hwDone == packetsDone + Outstanding() + Queued() + ph.waiting)
      && onPacketCalls == packetsDone + Outstanding()
      && offset == Position(|stream|, packetsDone + ph.advanced)
    }

    ghost predicate Registers(ph: Phase) {
      && Ownership(doubleBuffered, base, hwDone, Given(), currentGiveBuffer, available)
      && (var handled := Total() - toHandle + ph.handling - ph.limbo;
          handled >= 1 ==> currentTakeBuffer == Slot(handled - 1))
      && nextPid == (acked + Held()) % 2
      && (firstBufferAfterReset ==> currentGiveBuffer == 0)
    }

    ghost predicate Memory(ph: Phase) {
      if isIn then
        && InMemory(doubleBuffered, base, stream, hwDone, Given(), slotData)
        && (ph.advanced == 0 && ph.giving == 0 ==> !buffer.valid)
      else
        && InMemory(doubleBuffered, base, stream, packetsDone, hwDone, slotData)
        && (buffer.valid && Given() > 0 ==> outstandingPacket && buffer == HwBuffer(true, currentTakeBuffer, |PacketData(packetsDone)|))
    }

    ghost predicate FullBits() {
      FullMarks(isIn, doubleBuffered, base, packetsDone, hwDone, available, full)
    }

    ghost predicate Bus() {
      BusMarks(isIn, doubleBuffered, firstBufferAfterReset, base, hwDone, Given(), acked, available, full, data1, selector,
               hostData1)
    }

    /** Counters, ownership, registers and packet memory of a running transfer. */
    ghost predicate Core(ph: Phase) {
      && Shape() && Counts(ph) && Registers(ph) && Memory(ph) && FullBits() && Bus()
      && wire == stream[..Position(|stream|, hwDone)]
    }

    /** The client has been served exactly as far as the packets passed to it. */
    ghost predicate Client() {
      if isIn then ClientIn(stream, chunkSize, offset, chunkBuffer, chunks)
      else ClientOut(stream, chunkSize, Position(|stream|, packetsDone + Outstanding()), chunkBuffer, chunks)
    }

    /** The client has been served up to the stream offset: what on_packet starts from. */
    ghost predicate ServedToOffset() {
      if isIn then ClientIn(stream, chunkSize, offset, chunkBuffer, chunks)
      else ClientOut(stream, chunkSize, offset, chunkBuffer, chunks)
    }

    /** The chunk work of the outstanding packet is done, so the packet can be completed. */
    ghost predicate Ready() {
      && chunkSize > 0
      && if isIn then Filled(stream, chunkSize, offset - offset % chunkSize, chunkBuffer, chunks)
         else ClientOut(stream, chunkSize, Position(|stream|, packetsDone + 1), chunkBuffer, chunks)
    }

    /** With `pending` tasks (none or one) not yet finished, PICOBOOT has queued one task per chunk request, at
        consecutive addresses, and the pending one is in the mailbox or with the worker. */
    ghost predicate Tasks(pending: nat) {
      picoboot ==>
        && |tasks| == |chunks| + (if isIn then pending else 0) && pending <= |tasks|
        && (forall i :: 0 <= i < |tasks| ==> tasks[i] == PlannedTask(i))
        && taskAddress == firstAddress + Min(chunkSize * (|tasks| - pending), |stream|)
        && mailbox + working == (if pending == 1 then [tasks[|tasks| - 1]] else [])
    }

    function PlannedTask(i: int): Task {
      Task(firstAddress + chunkSize * i, Max0(Min(chunkSize, |stream| - chunkSize * i)))
    }

    static function Max0(x: int): nat { if x < 0 then 0 else x }

    /** Nothing more to do without an event. A deferred IN packet waits at the start of a chunk; a deferred OUT
        packet is the last of its chunk and waits for the chunk in the chunk buffer. */
    ghost predicate Settled() {
      && (outstandingPacket || ownedBufferCount == 0 || toSubmit == 0)
      && (packetQueued ==> outstandingPacket && toHandle < Total())
      && (outstandingPacket ==>
            if isIn then chunkSize > 0 && offset % chunkSize == 0 && toSubmit > 0
            else |chunks| > 0 && chunks[|chunks| - 1].data == chunkBuffer && EndsChunk())
      && (outstandingPacket ==> OthersGiven() && completeExpected)
    }

    /** The outstanding OUT packet ends a chunk. */
    ghost predicate EndsChunk() {
      && chunkSize > 0
      && (64 * (packetsDone + 1) < |stream| ==> 64 * (packetsDone + 1) % chunkSize == 0)
    }

    /** Beside a deferred packet and a queued one no buffer is owned that could have been given, except before the first
        packet of an IN transfer and when every OUT packet ends a chunk. */
    ghost predicate OthersGiven() {
      if isIn then packetsDone > 0 ==> ownedBufferCount == 1 + Queued()
      else toSubmit == 0 || ownedBufferCount == 1 + Queued() || chunkSize < 128
    }

    /** An OUT packet is passed on while another buffer is owned only at the start of a chunk or when there is nothing
        left to give. */
    ghost predicate OutMayStart() {
      chunkSize > 0 && (toSubmit == 0 || ownedBufferCount <= 1 || offset % chunkSize == 0)
    }

    /** Between two give, completion or chunk steps, with k completed packets being handled. */
    ghost predicate Between(k: nat) {
      Core(Phase(k, 0, 0, 0, 0)) && Client() && Settled() && Tasks(Outstanding())
    }

    /** The invariant of a running transfer between events. */
    ghost predicate Running() {
      Between(0) && (toHandle > 0 || outstandingPacket)
    }

    /** No transfer: the endpoint owns all its buffers. */
    ghost predicate Idle() {
      && !running && !halted && ownedBufferCount == BufferCount(doubleBuffered)
      && |available| == 2 && !available[0] && !available[1] && |slotData| == 2 && |full| == 2 && (isIn ==> full == available)
      && currentGiveBuffer < 2 && (!doubleBuffered ==> currentGiveBuffer == 0)
      && nextPid == acked % 2 && (firstBufferAfterReset ==> currentGiveBuffer == 0)
      && |data1| == 2 && selector < 2 && hostData1 == (acked % 2 == 1)
      && (firstBufferAfterReset || Selected(doubleBuffered, selector) == currentGiveBuffer)
      && (isIn ==> !buffer.valid)
    }

    /** Everything a finished transfer promises. */
    ghost predicate Finished() {
      && completed && completions == 1 && Idle()
      && wire == stream && ChunksUpTo(stream, chunkSize, chunks, |stream|) && (!isIn ==> ZeroTails(chunks, chunkSize))
      && onPacketCalls == packetsDone == hwDone == Total()
      && toSubmit == 0 && toHandle == 0 && !outstandingPacket && !packetQueued && offset == |stream|
      && Tasks(0)
    }

    /** A transfer given up because the endpoint was halted while its chunk was pending. No task is left, and at most
        one buffer is still at the hardware: its packet is the next one of the stream. */
    ghost predicate Aborted() {
      && completed && !running && halted && completions == 0 && toSubmit == 0 && toHandle == 0 && !outstandingPacket
      && |available| == 2 && |slotData| == 2 && |full| == 2 && |data1| == 2 && nextPid < 2 && currentGiveBuffer < 2
      && selector < 2 && hostData1 == (acked % 2 == 1) && (!doubleBuffered ==> !available[1])
      && 1 <= ownedBufferCount && ownedBufferCount + HeldCount() == BufferCount(doubleBuffered)
      && nextPid == (acked + HeldCount()) % 2
      && (picoboot ==> mailbox == [] && working == [])
      && wire == stream[..Position(|stream|, hwDone)] && (isIn ==> hwDone + HeldCount() <= packetsDone)
      && (HeldCount() > 0 ==>
            && 64 * hwDone < |stream| && CanMove(ep, hw)
            && (isIn ==> slotData[Selected(doubleBuffered, selector)] == Packet(stream, hwDone)))
    }

    function HeldCount(): nat
      requires |available| == 2
    {
      (if available[0] then 1 else 0) + (if available[1] then 1 else 0)
    }

    ghost predicate SameStream(t: State) {
      && isIn == t.isIn && doubleBuffered == t.doubleBuffered && chunkSize == t.chunkSize && picoboot == t.picoboot
      && stream == t.stream && firstAddress == t.firstAddress
    }

    /** The parts no step of the same transfer changes. */
    ghost predicate SameTransfer(t: State) {
      && isIn == t.isIn && doubleBuffered == t.doubleBuffered && transferLength == t.transferLength
      && chunkSize == t.chunkSize && picoboot == t.picoboot && stream == t.stream && base == t.base
      && hwDone == t.hwDone && acked == t.acked && firstAddress == t.firstAddress && taskAddress == t.taskAddress
      && working == t.working && wire == t.wire
    }
  }

  /** The client and the tasks do not notice steps that leave their part of the state alone. */
  lemma SameClient(s: State, t: State)
    requires s.isIn == t.isIn && s.stream == t.stream && s.chunkSize == t.chunkSize && s.offset == t.offset
    requires s.chunkBuffer == t.chunkBuffer && s.chunks == t.chunks
    requires s.packetsDone + s.Outstanding() == t.packetsDone + t.Outstanding()
    requires s.picoboot == t.picoboot && s.tasks == t.tasks && s.taskAddress == t.taskAddress
    requires s.mailbox == t.mailbox && s.working == t.working && s.firstAddress == t.firstAddress
    ensures s.Client() == t.Client() && (forall n :: s.Tasks(n) == t.Tasks(n))
  {
    hide ClientIn, ClientOut;
  }

  lemma SameTasks(s: State, t: State)
    requires s.isIn == t.isIn && s.stream == t.stream && s.chunkSize == t.chunkSize && s.chunks == t.chunks
    requires s.picoboot == t.picoboot && s.tasks == t.tasks && s.taskAddress == t.taskAddress
    requires s.mailbox == t.mailbox && s.working == t.working && s.firstAddress == t.firstAddress
    ensures forall n :: s.Tasks(n) == t.Tasks(n)
  {
  }

  /** Some packet is still to be handled while one is being handled, queued, to be submitted or at the hardware. */
  lemma StillToHandle(s: State, ph: Phase)
    requires s.Core(ph)
    ensures ph.handling > 0 || s.packetQueued || s.toSubmit > 0 || s.Held() > 0 ==> s.toHandle > 0
  {
    hide InMemory, ValidTransfer;
  }

  lemma WaitingIsForOut(s: State)
    requires s.Core(Phase(1, 1, 0, 0, 0)) && s.isIn
    ensures s.Core(Phase(1, 0, 0, 0, 0))
  {
    hide Ownership, InMemory, FullMarks, BusMarks, ValidTransfer;
  }

  /** With two buffers, the second packet of an IN transfer never starts a chunk. */
  lemma FirstPacketIsNoChunk(s: State, k: nat)
    requires s.Core(Phase(k, 0, 0, 0, 0)) && s.offset == 0 && s.isIn && s.doubleBuffered && |s.stream| > 64
    ensures Position(|s.stream|, s.packetsDone + 1) % s.chunkSize != 0
  {
    hide State.Registers, State.Memory, ValidTransfer;
    assert s.packetsDone == 0;
    var first := Min(64, |s.stream|);
    assert first % s.chunkSize == first;
  }

  /** A transfer that defers a packet after its first one has several. */
  lemma LaterPacket(s: State, k: nat)
    requires s.Core(Phase(k, 0, 0, 0, 0)) && s.Settled() && s.outstandingPacket && s.isIn && s.packetsDone > 0
    ensures |s.stream| > 64
  {
    hide State.Registers, State.Memory, ValidTransfer;
    assert s.packetsDone == s.Given() < s.Total();
  }

  /** What a running transfer lets a method touch. */
  lemma CoreBasics(s: State, ph: Phase)
    requires s.Core(ph)
    ensures s.Shape() && s.running && !s.completed && !s.halted && s.completions == 0
    ensures |s.available| == 2 && |s.slotData| == 2 && |s.full| == 2 && |s.data1| == 2 && s.selector < 2
    ensures |s.chunkBuffer| == s.chunkSize > 0
    ensures s.currentGiveBuffer < 2 && s.nextPid < 2 && s.transferLength == |s.stream|
    ensures s.packetQueued ==> s.doubleBuffered
    ensures s.ownedBufferCount + ph.limbo <= BufferCount(s.doubleBuffered)
    ensures s.Outstanding() + s.Queued() + ph.giving + ph.waiting <= s.ownedBufferCount + ph.limbo
    ensures s.isIn ==> s.packetsDone == s.Given() + ph.giving
    ensures s.toHandle == s.Total() - s.hwDone + s.Queued() + ph.handling && s.offset <= |s.stream|
    ensures s.firstBufferAfterReset ==> s.currentGiveBuffer == 0
  {
  }

  /** The hardware can move a packet exactly when it holds one, and it is the next one: the selected buffer is the one of
      the packet given first, whatever resets came before. */
  lemma HardwareReports(s: State)
    requires s.Core(QUIET)
    ensures CanMove(s.ep, s.hw) <==> s.Held() > 0
    ensures s.Held() > 0 ==>
      && Selected(s.doubleBuffered, s.selector) == s.Slot(s.hwDone)
      && Selected(s.doubleBuffered, s.selector) == OldestHeld(s.doubleBuffered, s.currentGiveBuffer, s.available)
      && 64 * s.hwDone < |s.stream| && |s.wire| == 64 * s.hwDone
  {
    hide InMemory, MarkedFull, ValidTransfer, State.Memory;
    OldestHeldIsNext(s.doubleBuffered, s.base, s.hwDone, s.Given(), s.currentGiveBuffer, s.available);
    if s.Held() > 0 { PidsDone(s.doubleBuffered, s.base, s.hwDone, s.Given(), s.acked, s.data1); }
  }

  /** Every packet the hardware holds is in a buffer it can take: full for IN, empty for OUT, with the packet's data PID. */
  lemma HeldIsMarked(s: State, i: int)
    requires s.Core(QUIET) && s.hwDone <= i < s.Given()
    ensures |s.available| == |s.full| == |s.data1| == 2
    ensures s.available[s.Slot(i)] && s.full[s.Slot(i)] == s.isIn && s.data1[s.Slot(i)] == ((s.acked + i - s.hwDone) % 2 == 1)
  {
    hide InMemory, MarkedFull, ValidTransfer, State.Memory;
  }

  /** While unhalted, a transfer always waits for something that can happen: a deferred chunk or a packet at the
      hardware. */
  lemma Progress(s: State)
    requires s.Running()
    ensures s.outstandingPacket || s.Held() > 0
  {
  }

  // ---- giving a buffer to the hardware --------------------------------------------------------------

  function GiveStep(s: State): State
    requires s.currentGiveBuffer < |s.available| == |s.full| == |s.data1| && s.ownedBufferCount > 0 && s.toSubmit > 0 && s.nextPid < 2
    requires s.currentGiveBuffer < 2
  {
    s.(ep := s.ep.(firstBufferAfterReset := false, nextPid := 1 - s.nextPid, buffer := s.buffer.(valid := false),
                   ownedBufferCount := s.ownedBufferCount - 1,
                   currentGiveBuffer := if s.doubleBuffered then 1 - s.currentGiveBuffer else s.currentGiveBuffer),
       tr := s.tr.(toSubmit := s.toSubmit - 1),
       hw := s.hw.(available := s.available[s.currentGiveBuffer := true], full := s.full[s.currentGiveBuffer := s.isIn],
                   data1 := s.data1[s.currentGiveBuffer := s.nextPid == 1],
                   selector := if s.firstBufferAfterReset then 0 else s.selector))
  }

  lemma GiveKeeps(s: State, k: nat)
    requires s.Core(Phase(k, 0, 0, if s.isIn then 1 else 0, 0)) && !s.outstandingPacket
    requires s.ownedBufferCount > 0 && s.toSubmit > 0
    requires s.isIn ==> 64 * s.Given() < |s.stream| && s.slotData[s.currentGiveBuffer] == Packet(s.stream, s.Given())
    requires s.isIn || !s.packetQueued
    ensures s.currentGiveBuffer < 2 == |s.full| == |s.data1| && !s.available[s.currentGiveBuffer]
    ensures GiveStep(s).Core(Phase(k, 0, 0, 0, 0))
  {
    GiveKeepsBus(s, k);
    GiveKeepsMemory(s, k);
    GiveKeepsCounts(s, k);
    GiveKeepsRegisters(s, k);
    OwnershipGive(s.doubleBuffered, s.base, s.hwDone, s.Given(), s.currentGiveBuffer, s.available);
    hide Ownership, InMemory, FullMarks, BusMarks, ValidTransfer, SlotOf, State.Counts, State.Registers, State.Memory;
  }

  lemma GiveKeepsCounts(s: State, k: nat)
    requires s.Core(Phase(k, 0, 0, if s.isIn then 1 else 0, 0)) && !s.outstandingPacket
    requires s.ownedBufferCount > 0 && s.toSubmit > 0 && (s.isIn || !s.packetQueued)
    ensures s.currentGiveBuffer < |s.available| == |s.full| == |s.data1|
    ensures GiveStep(s).Counts(Phase(k, 0, 0, 0, 0))
  {
    CoreBasics(s, Phase(k, 0, 0, if s.isIn then 1 else 0, 0));
    hide State.Registers, State.FullBits, State.Bus, State.Memory, ValidStream;
  }

  lemma GiveKeepsRegisters(s: State, k: nat)
    requires s.Core(Phase(k, 0, 0, if s.isIn then 1 else 0, 0)) && !s.outstandingPacket
    requires s.ownedBufferCount > 0 && s.toSubmit > 0 && (s.isIn || !s.packetQueued)
    ensures s.currentGiveBuffer < |s.available| == |s.full| == |s.data1|
    ensures GiveStep(s).Registers(Phase(k, 0, 0, 0, 0))
  {
    hide Ownership, SlotOf, State.Memory, State.FullBits, State.Bus, ValidStream;
    CoreBasics(s, Phase(k, 0, 0, if s.isIn then 1 else 0, 0));
    NextParity(s.acked + s.Held());
    OwnershipGive(s.doubleBuffered, s.base, s.hwDone, s.Given(), s.currentGiveBuffer, s.available);
  }

  lemma NextParity(n: nat)
    ensures (n + 1) % 2 == 1 - n % 2
  {
  }

  lemma GiveKeepsMemory(s: State, k: nat)
    requires s.Core(Phase(k, 0, 0, if s.isIn then 1 else 0, 0)) && !s.outstandingPacket
    requires s.ownedBufferCount > 0 && s.toSubmit > 0 && (s.isIn || !s.packetQueued)
    requires s.isIn ==> 64 * s.Given() < |s.stream| && s.slotData[s.currentGiveBuffer] == Packet(s.stream, s.Given())
    ensures s.currentGiveBuffer < |s.available| == |s.full| == |s.data1|
    ensures GiveStep(s).Memory(Phase(k, 0, 0, 0, 0))
  {
    hide InMemory, ValidTransfer, State.FullBits, State.Bus;
    GiveKeepsBus(s, k);
    if s.isIn {
      InMemoryAdd(s.doubleBuffered, s.base, s.stream, s.hwDone, s.Given(), s.slotData, s.currentGiveBuffer);
      assert s.slotData == s.slotData[s.currentGiveBuffer := Packet(s.stream, s.Given())];
    }
  }

  /** The buffer given is marked as the hardware wants it, and selected if it is the first one after a reset. */
  lemma GiveKeepsBus(s: State, k: nat)
    requires s.Core(Phase(k, 0, 0, if s.isIn then 1 else 0, 0)) && !s.outstandingPacket
    requires s.ownedBufferCount > 0 && s.toSubmit > 0 && (s.isIn || !s.packetQueued)
    ensures s.currentGiveBuffer < |s.available| == |s.full| == |s.data1| && GiveStep(s).Bus() && GiveStep(s).FullBits()
  {
    hide InMemory, ValidTransfer, MarkedPids, State.Memory;
    PidsGive(s.doubleBuffered, s.base, s.hwDone, s.Given(), s.currentGiveBuffer, s.acked, s.data1);
  }

  // ---- calling on_packet ------------------------------------------------------------------------------

  function CallStep(s: State): State {
    s.(tr := s.tr.(outstandingPacket := true), log := s.log.(onPacketCalls := s.onPacketCalls + 1))
  }

  lemma CallKeeps(s: State, k: nat)
    requires s.Core(Phase(k, if s.isIn then 0 else 1, 0, 0, 0)) && !s.outstandingPacket && !s.packetQueued
    requires s.isIn ==> s.ownedBufferCount > 0
    ensures CallStep(s).Core(Phase(k, 0, 0, 0, 0))
  {
    hide Ownership, InMemory, FullMarks, BusMarks, ValidTransfer, SlotOf;
  }

  lemma CallKeepsClient(s: State, k: nat)
    requires s.Core(Phase(k, if s.isIn then 0 else 1, 0, 0, 0)) && !s.outstandingPacket && s.Client()
    ensures CallStep(s).ServedToOffset()
    ensures forall n :: CallStep(s).Tasks(n) == s.Tasks(n)
  {
    SameTasks(s, CallStep(s));
    hide ClientIn, ClientOut, ValidTransfer, State.Registers, State.Memory, State.Tasks;
  }

  /** The packet an unfinished on_packet is about exists; for OUT it is in the buffer last taken. */
  lemma OutstandingPacketData(s: State, k: nat)
    requires s.Core(Phase(k, 0, 0, 0, 0)) && s.outstandingPacket && k <= 1 && (k == 1 ==> !s.packetQueued)
    requires s.isIn ==> s.toSubmit > 0
    ensures 64 * s.packetsDone < |s.stream| && s.offset == 64 * s.packetsDone
    ensures !s.isIn ==> s.currentTakeBuffer < 2
    ensures !s.isIn ==> s.slotData[s.currentTakeBuffer] == Packet(s.stream, s.packetsDone)
    ensures !s.isIn && s.buffer.valid ==> s.buffer == HwBuffer(true, s.currentTakeBuffer, |Packet(s.stream, s.packetsDone)|)
  {
    hide ValidTransfer;
    if !s.isIn {
      InMemoryDrop(s.doubleBuffered, s.base, s.stream, s.packetsDone, s.hwDone, s.slotData);
    }
  }

  /** usb_current_out_packet_buffer */
  function AcquireOut(s: State): HwBuffer
    requires s.currentTakeBuffer < |s.slotData|
  {
    if s.buffer.valid then s.buffer else HwBuffer(true, s.currentTakeBuffer, |s.slotData[s.currentTakeBuffer]|)
  }

  /** The FULL bits are as the packet buffer is about to be looked at: set for a packet that has come in, clear for one
      to be filled. */
  predicate RightlyFull(s: State) {
    && |s.full| == 2
    && if s.isIn then s.currentGiveBuffer < 2 && !s.full[s.currentGiveBuffer]
       else s.buffer.valid || (s.currentTakeBuffer < 2 && s.full[s.currentTakeBuffer])
  }

  lemma OutstandingIsRightlyFull(s: State, k: nat)
    requires s.Core(Phase(k, 0, 0, 0, 0)) && s.outstandingPacket && k <= 1 && (k == 1 ==> !s.packetQueued)
    ensures RightlyFull(s)
  {
    hide ValidTransfer, State.Memory;
    if s.isIn {
      OwnershipGive(s.doubleBuffered, s.base, s.hwDone, s.Given(), s.currentGiveBuffer, s.available);
    } else {
      hide Ownership, SlotOf;
      assert s.currentTakeBuffer == s.Slot(s.packetsDone);
    }
  }

  /** There is an OUT packet, and room for it in the chunk buffer. */
  predicate CanCopy(s: State) {
    && !s.isIn && s.currentTakeBuffer < |s.slotData| && |s.chunkBuffer| == s.chunkSize > 0
    && ChunkOffset(s.offset, s.chunkSize) + |s.slotData[s.currentTakeBuffer]| <= s.chunkSize && RightlyFull(s)
  }

  /** An OUT packet copied into the chunk buffer. */
  function CopyStep(s: State): State
    requires CanCopy(s)
  {
    var after := Copied(s.chunkBuffer, s.chunkSize, ChunkOffset(s.offset, s.chunkSize), s.slotData[s.currentTakeBuffer]);
    s.(ep := s.ep.(buffer := AcquireOut(s)), tr := s.tr.(chunkBuffer := after))
  }

  /** The client of an OUT stream is handed the chunk buffer. */
  function HandStep(s: State, n: nat): State {
    s.(log := s.log.(chunks := s.chunks + [Chunk(n, s.chunkBuffer)]))
  }

  /** An OUT packet copied, and the chunk handed over when the packet completes it. */
  function OutPacketStep(s: State): State
    requires CanCopy(s)
  {
    var n := OutChunkLength(s.offset, s.transferLength, s.chunkSize);
    if n != 0 then HandStep(CopyStep(s), n) else CopyStep(s)
  }

  lemma OutPacketKeeps(s: State, k: nat)
    requires s.Core(Phase(k, 0, 0, 0, 0)) && s.outstandingPacket && k <= 1 && (k == 1 ==> !s.packetQueued)
    requires !s.isIn && s.ServedToOffset()
    ensures CanCopy(s) && s.currentTakeBuffer < 2 && s.slotData[s.currentTakeBuffer] == Packet(s.stream, s.packetsDone)
    ensures var t := OutPacketStep(s);
      t.Core(Phase(k, 0, 0, 0, 0)) && t.Ready() && t.Client()
    ensures var n := OutChunkLength(s.offset, s.transferLength, s.chunkSize);
      && (n != 0 || AcquireOut(s).len == 64)
      && (n != 0 ==> AcquireOut(s).len == (if n % 64 != 0 then n % 64 else 64))
      && (n != 0 ==> ChunkAt(s.stream, s.chunkSize, |s.chunks|, Chunk(n, OutPacketStep(s).chunkBuffer)))
  {
    hide Ownership, InMemory, FullMarks, BusMarks, ValidTransfer, SlotOf, OutChunkLength, ChunkOffset, Copied, ClientOut, ChunkAt;
    OutstandingPacketData(s, k);
    OutstandingIsRightlyFull(s, k);
    var i := s.packetsDone;
    ChunkArithmetic(s.isIn, |s.stream|, s.chunkSize, i);
    OutLengths(|s.stream|, s.chunkSize, i);
    OutStep(s.stream, s.chunkSize, i, s.chunkBuffer, s.chunks);
    LastPacketLength(|s.stream|, s.chunkSize, i);
    OutPacketKeepsCore(s, OutPacketStep(s), k);
    hide State.Core;
  }

  /** The engine only notices that the packet buffer has been looked at. */
  lemma OutPacketKeepsCore(s: State, t: State, k: nat)
    requires s.Core(Phase(k, 0, 0, 0, 0)) && s.outstandingPacket && !s.isIn
    requires t.buffer == HwBuffer(true, s.currentTakeBuffer, |s.PacketData(s.packetsDone)|)
    requires t == s.(ep := s.ep.(buffer := t.buffer), tr := s.tr.(chunkBuffer := t.chunkBuffer), log := s.log.(chunks := t.chunks))
    requires |t.chunkBuffer| == |s.chunkBuffer|
    ensures t.Core(Phase(k, 0, 0, 0, 0))
  {
    hide Ownership, InMemory, FullMarks, BusMarks, ValidTransfer, SlotOf;
    var ph := Phase(k, 0, 0, 0, 0);
    assert t.Counts(ph) by { hide State.Registers, State.Memory; }
    assert t.Registers(ph) by { hide State.Counts, State.Memory; }
    assert t.Memory(ph) by { hide State.Registers, State.Counts; }
  }

  /** The packet that completes a chunk carries the chunk's last bytes. */
  lemma LastPacketLength(length: nat, size: nat, i: nat)
    requires ValidTransfer(false, length, size) && 64 * i < length
    ensures var n, len := OutChunkLength(64 * i, length, size), Position(length, i + 1) - 64 * i;
      n != 0 ==> len == (if n % 64 != 0 then n % 64 else 64)
  {
    OutLengths(length, size, i);
    PacketInChunk(i, size);
    hide OutChunkLength, ValidTransfer;
    var n, at, len := OutChunkLength(64 * i, length, size), (64 * i) % size, Position(length, i + 1) - 64 * i;
    if n != 0 { LastBytes(at, len, n); }
  }

  lemma LastBytes(at: nat, len: nat, n: nat)
    requires at % 64 == 0 && 0 < len <= 64 && n == at + len
    ensures len == (if n % 64 != 0 then n % 64 else 64)
  {
    var q := at / 64;
    if len == 64 { DivModUnique(n, 64, q + 1, 0); } else { DivModUnique(n, 64, q, len); }
  }

  // ---- chunks and tasks ---------------------------------------------------------------------------------

  /** The client of an IN stream fills the chunk that starts at the offset. */
  function FillStep(s: State): State
    requires s.offset <= |s.stream| && |s.chunkBuffer| == s.chunkSize
  {
    var data := ChunkData(s);
    var after := data + s.chunkBuffer[|data|..];
    s.(tr := s.tr.(chunkBuffer := after), log := s.log.(chunks := s.chunks + [Chunk(|data|, after)]))
  }

  /** The bytes of the chunk that starts at the stream offset. */
  function ChunkData(s: State): (data: seq<Byte>)
    requires s.offset <= |s.stream|
    ensures |data| <= s.chunkSize
  {
    s.stream[s.offset..s.offset + Min(s.chunkSize, |s.stream| - s.offset)]
  }

  /** From here on the packet may be completed. */
  function ExpectStep(s: State): State { s.(tr := s.tr.(completeExpected := true)) }

  lemma ExpectKeeps(s: State, ph: Phase)
    requires s.Core(ph)
    ensures var t := ExpectStep(s);
      t.Core(ph) && t.ServedToOffset() == s.ServedToOffset() && t.Ready() == s.Ready() && forall n :: t.Tasks(n) == s.Tasks(n)
  {
    CoreBasics(s, ph);
    ClientWorkKeepsCore(s, ExpectStep(s), ph);
    SameTasks(s, ExpectStep(s));
    hide State.Core, State.Tasks, ClientIn, ClientOut, Filled;
  }

  lemma FillKeeps(s: State, k: nat)
    requires s.Core(Phase(k, 0, 0, 0, 0)) && s.outstandingPacket && s.isIn && s.toSubmit > 0
    requires s.ServedToOffset() && s.chunkSize > 0 && s.offset % s.chunkSize == 0
    ensures s.offset < |s.stream| && |s.chunkBuffer| == s.chunkSize
    ensures FillStep(s).Core(Phase(k, 0, 0, 0, 0)) && FillStep(s).Ready()
  {
    hide Ownership, InMemory, FullMarks, BusMarks, ValidTransfer, SlotOf, State.Registers, State.Memory;
    assert s.Given() < s.Total();
    InFill(s.stream, s.chunkSize, s.packetsDone, s.chunkBuffer, s.chunks);
    hide Filled, ClientIn, State.Counts;
    ClientWorkKeepsCore(s, FillStep(s), Phase(k, 0, 0, 0, 0));
  }

  /** The engine looks neither at the chunk buffer nor at PICOBOOT's tasks. */
  lemma ClientWorkKeepsCore(s: State, t: State, ph: Phase)
    requires s.Core(ph)
    requires t == s.(tr := s.tr.(chunkBuffer := t.chunkBuffer, completeExpected := t.completeExpected), pb := t.pb,
                     log := s.log.(chunks := t.chunks, tasks := t.tasks))
    requires |t.chunkBuffer| == |s.chunkBuffer|
    ensures t.Core(ph)
  {
    hide Ownership, InMemory, FullMarks, BusMarks, ValidTransfer, SlotOf;
    assert t.Counts(ph) by { hide State.Registers, State.Memory; }
    assert t.Registers(ph) by { hide State.Counts, State.Memory; }
    assert t.Memory(ph) by { hide State.Registers, State.Counts; }
  }

  /** PICOBOOT's on_chunk: queue_task in the mailbox. */
  function QueueStep(s: State, n: nat): State {
    var task := Task(s.taskAddress, n);
    s.(pb := s.pb.(mailbox := [task]), log := s.log.(tasks := s.tasks + [task]))
  }

  /** _atc_chunk_task_done advances the address of the next task. */
  function TaskDoneStep(s: State, n: nat): State {
    s.(pb := s.pb.(taskAddress := s.taskAddress + n, mailbox := [], working := []))
  }

  /** Queueing the task of the chunk with index `i`: the mailbox is empty and the task is the planned one. */
  lemma QueueKeeps(s: State, t: State, n: nat, i: nat)
    requires s.Tasks(0) && s.picoboot && i == |s.chunks|
    requires s.chunkSize * i < |s.stream| && n == Min(s.chunkSize, |s.stream| - s.chunkSize * i)
    requires |t.chunks| == (if s.isIn then i else i + 1)
    requires t.isIn == s.isIn && t.stream == s.stream && t.chunkSize == s.chunkSize && t.firstAddress == s.firstAddress
    requires t.pb == QueueStep(s, n).pb && t.tasks == QueueStep(s, n).tasks
    ensures s.mailbox == [] && t.Tasks(1)
  {
    assert s.chunkSize * (|t.tasks| - 1) == s.chunkSize * i;
    forall j | 0 <= j < |t.tasks| ensures t.tasks[j] == t.PlannedTask(j) {
      if j < i { assert t.tasks[j] == s.tasks[j]; }
    }
  }

  /** Finishing the pending task. */
  lemma TaskDoneKeeps(s: State, t: State, n: nat)
    requires s.Tasks(1) && s.picoboot && |s.tasks| > 0 && s.chunkSize * (|s.tasks| - 1) < |s.stream|
    requires n == Min(s.chunkSize, |s.stream| - s.chunkSize * (|s.tasks| - 1))
    requires |t.chunks| == |s.tasks|
    requires t.isIn == s.isIn && t.stream == s.stream && t.chunkSize == s.chunkSize && t.firstAddress == s.firstAddress
    requires t.pb == TaskDoneStep(s, n).pb && t.tasks == s.tasks
    ensures t.Tasks(0)
  {
    assert s.chunkSize * |s.tasks| == s.chunkSize * (|s.tasks| - 1) + s.chunkSize;
  }

  // ---- completing a packet --------------------------------------------------------------------------------

  ghost predicate CanAdvance(s: State) {
    && s.chunkSize > 0
    && if s.isIn then
         && s.currentGiveBuffer < |s.slotData| && s.offset < |s.stream|
         && s.offset % s.chunkSize + Min(64, |s.stream| - s.offset) <= |s.chunkBuffer|
       else
         s.currentTakeBuffer < |s.slotData|
  }

  /** usb_stream_packet_handler_complete: an IN packet is copied from the chunk into the buffer to give, an OUT
      packet is already in the chunk buffer; the offset advances. */
  ghost function AdvanceStep(s: State): State
    requires CanAdvance(s)
  {
    if s.isIn then
      var at, len := s.offset % s.chunkSize, Min(64, |s.stream| - s.offset);
      s.(hw := s.hw.(slotData := s.slotData[s.currentGiveBuffer := s.chunkBuffer[at..at + len]]),
         ep := s.ep.(buffer := HwBuffer(true, s.currentGiveBuffer, len)),
         tr := s.tr.(offset := s.offset + len, completeExpected := false))
    else
      s.(ep := s.ep.(buffer := AcquireOut(s)), tr := s.tr.(offset := s.offset + AcquireOut(s).len, completeExpected := false))
  }

  /** The buffer to give holds the current packet. */
  ghost predicate GivablePacket(s: State) {
    && s.currentGiveBuffer < |s.slotData| && s.slotData[s.currentGiveBuffer] == s.PacketData(s.packetsDone)
    && s.buffer == HwBuffer(true, s.currentGiveBuffer, |s.PacketData(s.packetsDone)|)
  }

  lemma AdvanceKeeps(s: State, k: nat)
    requires s.Core(Phase(k, 0, 0, 0, 0)) && s.outstandingPacket && s.Ready() && k <= 1 && (k == 1 ==> !s.packetQueued)
    requires s.isIn ==> s.toSubmit > 0
    ensures CanComplete(s)
    ensures AdvanceStep(s).Core(Phase(k, 0, 1, 0, 0)) && AdvanceStep(s).Client()
    ensures s.isIn ==> 64 * s.packetsDone < |s.stream| && GivablePacket(AdvanceStep(s))
  {
    hide Ownership, InMemory, FullMarks, BusMarks, ValidTransfer, SlotOf, ClientIn, ClientOut, Filled;
    AdvanceData(s, k);
    OutstandingPacketData(s, k);
    AdvanceKeepsCore(s, k);
    var t := AdvanceStep(s);
    assert t.offset == Position(|s.stream|, s.packetsDone + 1);
    hide State.Core, State.Ready;
  }

  lemma AdvanceKeepsCore(s: State, k: nat)
    requires s.Core(Phase(k, 0, 0, 0, 0)) && s.outstandingPacket && k <= 1 && (k == 1 ==> !s.packetQueued)
    requires CanComplete(s) && (s.isIn ==> s.toSubmit > 0)
    requires var at := s.offset % s.chunkSize;
      s.isIn ==> s.chunkBuffer[at..at + Min(64, |s.stream| - s.offset)] == Packet(s.stream, s.packetsDone)
    requires !s.isIn ==> AcquireOut(s) == HwBuffer(true, s.currentTakeBuffer, |Packet(s.stream, s.packetsDone)|)
    ensures AdvanceStep(s).Core(Phase(k, 0, 1, 0, 0))
  {
    hide Ownership, InMemory, FullMarks, BusMarks, ValidTransfer, SlotOf;
    var t, ph := AdvanceStep(s), Phase(k, 0, 1, 0, 0);
    assert t.Counts(ph) by { hide State.Registers, State.Memory; }
    assert t.Registers(ph) by { hide State.Counts, State.Memory; }
    assert t.Memory(ph) by {
      hide State.Registers, State.Counts;
      if s.isIn { AdvanceInMemory(s, k, Packet(s.stream, s.packetsDone)); }
    }
  }

  /** The data the packet carries, and where the client stands after it. */
  lemma AdvanceData(s: State, k: nat)
    requires s.Core(Phase(k, 0, 0, 0, 0)) && s.outstandingPacket && s.Ready() && k <= 1 && (k == 1 ==> !s.packetQueued)
    requires s.isIn ==> s.toSubmit > 0
    ensures CanComplete(s)
    ensures var at := s.offset % s.chunkSize;
      s.isIn ==> s.chunkBuffer[at..at + Min(64, |s.stream| - s.offset)] == Packet(s.stream, s.packetsDone)
    ensures s.isIn ==> ClientIn(s.stream, s.chunkSize, Position(|s.stream|, s.packetsDone + 1), s.chunkBuffer, s.chunks)
    ensures !s.isIn ==> AcquireOut(s) == HwBuffer(true, s.currentTakeBuffer, |Packet(s.stream, s.packetsDone)|)
  {
    hide Ownership, InMemory, FullMarks, BusMarks, ValidTransfer, SlotOf, ClientIn, ClientOut;
    OutstandingPacketData(s, k);
    OutstandingIsRightlyFull(s, k);
    if s.isIn {
      InAdvance(s.stream, s.chunkSize, s.packetsDone, s.chunkBuffer, s.chunks);
    }
  }

  lemma AdvanceInMemory(s: State, k: nat, data: seq<Byte>)
    requires s.Core(Phase(k, 0, 0, 0, 0)) && s.outstandingPacket && s.isIn
    ensures InMemory(s.doubleBuffered, s.base, s.stream, s.hwDone, s.Given(), s.slotData[s.currentGiveBuffer := data])
  {
    hide InMemory, SlotOf, ValidTransfer;
    OwnershipGive(s.doubleBuffered, s.base, s.hwDone, s.Given(), s.currentGiveBuffer, s.available);
    InMemoryWrite(s.doubleBuffered, s.base, s.stream, s.hwDone, s.Given(), s.slotData, s.currentGiveBuffer, data);
  }

  /** usb_packet_done clears the outstanding packet; an IN packet is then ready to be given. */
  function DoneStep(s: State): State {
    s.(tr := s.tr.(outstandingPacket := false), hist := s.hist.(packetsDone := s.packetsDone + 1),
       ep := s.ep.(buffer := if s.isIn then s.buffer else s.buffer.(valid := false)))
  }

  lemma DoneKeeps(s: State, k: nat)
    requires s.Core(Phase(k, 0, 1, 0, 0)) && s.outstandingPacket && s.Client()
    ensures DoneStep(s).Core(Phase(k, 0, 0, if s.isIn then 1 else 0, 0)) && DoneStep(s).Client()
  {
    hide Ownership, InMemory, FullMarks, BusMarks, ValidTransfer, SlotOf, ClientIn, ClientOut;
    FullMarksDrop(s.isIn, s.doubleBuffered, s.base, s.packetsDone, s.hwDone, s.available, s.full);
    var ph, ph' := Phase(k, 0, 1, 0, 0), Phase(k, 0, 0, if s.isIn then 1 else 0, 0);
    assert DoneStep(s).Counts(ph') by { hide State.Registers, State.Memory, State.Client; }
    assert DoneStep(s).Registers(ph') by { hide State.Memory, State.Client, State.Shape; }
    assert DoneStep(s).Memory(ph') by {
      hide State.Registers, State.Client, State.Shape;
      if !s.isIn {
        InMemoryDrop(s.doubleBuffered, s.base, s.stream, s.packetsDone, s.hwDone, s.slotData);
      }
    }
  }

  // ---- a completion by the hardware ----------------------------------------------------------------------

  /** The hardware after it has moved the packet in buffer `slot`; `data` is what an OUT packet brings. */
  function MovedFrom(s: State, slot: nat, data: seq<Byte>): Hardware
    requires slot < |s.available| == |s.slotData| == |s.full| && s.selector < 2
  {
    Hardware(s.available[slot := false], if s.isIn then s.slotData else s.slotData[slot := data],
             s.full[slot := !s.isIn], s.data1, 1 - s.selector, !s.hostData1)
  }

  /** The hardware completes the oldest packet it holds: an IN packet goes out on the bus, an OUT packet comes in. */
  function HardwareStep(s: State): State
    requires |s.available| == 2 && |s.slotData| == 2 && |s.full| == 2 && s.selector < 2 && s.hwDone < s.Total()
  {
    var slot, data := s.Slot(s.hwDone), s.PacketData(s.hwDone);
    s.(hw := MovedFrom(s, slot, data),
       log := s.log.(wire := s.wire + (if s.isIn then s.slotData[slot] else data)),
       hist := s.hist.(hwDone := s.hwDone + 1, acked := s.acked + 1))
  }

  lemma HardwareKeeps(s: State)
    requires s.Core(QUIET) && s.Held() > 0 && s.Settled()
    ensures s.hwDone < s.Total() && s.available[s.Slot(s.hwDone)]
    ensures HardwareStep(s).Core(Phase(1, 1, 0, 0, 1))
    ensures s.Slot(s.hwDone) == s.Slot(s.Total() - s.toHandle) && !s.packetQueued
    ensures s.outstandingPacket ==> s.doubleBuffered
  {
    hide State.Memory, State.Registers, State.FullBits, State.Bus, ValidStream, SlotOf;
    CoreBasics(s, QUIET);
    HardwareKeepsBus(s);
    HardwareKeepsRegisters(s);
    HardwareMemory(s);
    HardwareKeepsCounts(s);
    PacketAppend(s.stream, s.hwDone);
    hide State.Counts;
  }

  lemma HardwareKeepsCounts(s: State)
    requires s.Core(QUIET) && s.Held() > 0 && s.Settled()
    ensures |s.available| == |s.slotData| == |s.full| == 2 && s.selector < 2 && s.hwDone < s.Total()
    ensures HardwareStep(s).Counts(Phase(1, 1, 0, 0, 1)) && s.hwDone == s.Total() - s.toHandle && !s.packetQueued
    ensures s.outstandingPacket ==> s.doubleBuffered
  {
    CoreBasics(s, QUIET);
    hide State.Memory, State.Registers, State.FullBits, State.Bus, ValidStream;
  }

  lemma HardwareKeepsRegisters(s: State)
    requires s.Core(QUIET) && s.Held() > 0
    ensures s.hwDone < s.Total() && s.available[s.Slot(s.hwDone)]
    ensures HardwareStep(s).Registers(Phase(1, 1, 0, 0, 1))
  {
    CoreBasics(s, QUIET);
    hide Ownership, SlotOf, State.Memory, State.FullBits, State.Bus, State.Shape, State.Counts, ValidStream;
    OwnershipDone(s.doubleBuffered, s.base, s.hwDone, s.Given(), s.currentGiveBuffer, s.available);
  }

  /** The next buffer is selected, and the marks of those still held are right for the packets after. */
  lemma HardwareKeepsBus(s: State)
    requires s.Core(QUIET) && s.Held() > 0
    ensures s.hwDone < s.Total() && HardwareStep(s).Bus() && HardwareStep(s).FullBits()
  {
    hide State.Memory, State.Registers, FullMarks, BusMarks, ValidStream, SlotOf;
    CoreBasics(s, QUIET);
    BusDone(s.isIn, s.doubleBuffered, s.firstBufferAfterReset, s.base, s.packetsDone, s.hwDone, s.Given(), s.acked,
            s.available, s.full, s.data1, s.selector, s.hostData1);
  }

  lemma HardwareMemory(s: State)
    requires s.Core(QUIET) && s.Held() > 0
    ensures s.hwDone < s.Total() && HardwareStep(s).Memory(Phase(1, 1, 0, 0, 1))
    ensures s.isIn ==> s.slotData[s.Slot(s.hwDone)] == s.PacketData(s.hwDone)
  {
    CoreBasics(s, QUIET);
    hide Ownership, InMemory, FullMarks, BusMarks, ValidTransfer, SlotOf, State.Registers;
    if s.isIn {
      InMemoryDrop(s.doubleBuffered, s.base, s.stream, s.hwDone, s.Given(), s.slotData);
    } else {
      InMemoryAdd(s.doubleBuffered, s.base, s.stream, s.packetsDone, s.hwDone, s.slotData, s.Slot(s.hwDone));
    }
  }

  lemma HardwareKeepsClient(s: State)
    requires |s.available| == 2 && |s.slotData| == 2 && |s.full| == 2 && s.selector < 2 && s.hwDone < s.Total()
    ensures HardwareStep(s).Client() == s.Client() && (forall n :: HardwareStep(s).Tasks(n) == s.Tasks(n))
    ensures s.outstandingPacket && s.Settled() ==> HardwareStep(s).Settled()
  {
    SameTasks(s, HardwareStep(s));
    hide ClientIn, ClientOut, State.Tasks;
  }

  /** The completed buffer becomes owned and is taken. */
  function TakeStep(s: State, which: nat): State {
    s.(ep := s.ep.(ownedBufferCount := s.ownedBufferCount + 1, currentTakeBuffer := which))
  }

  lemma TakeKeeps(s: State, which: nat)
    requires s.Core(Phase(1, 1, 0, 0, 1)) && which == s.Slot(s.Total() - s.toHandle)
    requires !s.outstandingPacket
    ensures TakeStep(s, which).Core(Phase(1, 1, 0, 0, 0))
  {
    hide Ownership, InMemory, FullMarks, BusMarks, ValidTransfer, SlotOf;
  }

  /** The completed buffer becomes owned while another packet is outstanding: the packet is queued. */
  function QueuePacketStep(s: State): State {
    s.(ep := s.ep.(ownedBufferCount := s.ownedBufferCount + 1), tr := s.tr.(packetQueued := true))
  }

  lemma QueuePacketKeeps(s: State)
    requires s.Core(Phase(1, 1, 0, 0, 1)) && s.outstandingPacket && !s.packetQueued && s.doubleBuffered
    ensures QueuePacketStep(s).Core(QUIET)
  {
    hide Ownership, InMemory, FullMarks, BusMarks, ValidTransfer, SlotOf;
  }

  /** A queued packet is taken up again. */
  function UnqueueStep(s: State): State
    requires s.ownedBufferCount > 0
  {
    s.(tr := s.tr.(packetQueued := false), ep := s.ep.(ownedBufferCount := s.ownedBufferCount - 1))
  }

  lemma UnqueueKeeps(s: State)
    requires s.Core(QUIET) && s.packetQueued && !s.outstandingPacket && s.toHandle < s.Total()
    ensures s.ownedBufferCount > 0 && UnqueueStep(s).Core(Phase(1, 1, 0, 0, 1))
    ensures s.currentTakeBuffer < 2 && 1 - s.currentTakeBuffer == s.Slot(s.Total() - s.toHandle)
  {
    QueuedIsInOther(s);
    hide Ownership, InMemory, FullMarks, BusMarks, ValidTransfer, SlotOf;
    var t, ph := UnqueueStep(s), Phase(1, 1, 0, 0, 1);
    assert t.Counts(ph) by { hide State.Registers, State.Memory; }
    assert t.Registers(ph) by { hide State.Counts, State.Memory; }
    assert t.Memory(ph) by { hide State.Registers, State.Counts; }
  }

  lemma QueuedIsInOther(s: State)
    requires s.Core(QUIET) && s.packetQueued && !s.outstandingPacket && s.toHandle < s.Total()
    ensures s.currentTakeBuffer < 2 && 1 - s.currentTakeBuffer == s.Slot(s.Total() - s.toHandle)
  {
    hide Ownership, State.Counts, State.Memory, ValidTransfer;
    CoreBasics(s, QUIET);
    assert s.currentTakeBuffer == s.Slot(s.Total() - s.toHandle - 1);
  }

  function HandledStep(s: State): State
    requires s.toHandle > 0
  {
    s.(tr := s.tr.(toHandle := s.toHandle - 1))
  }

  /** w is zero after on_packet ran, and for an IN packet that needed no on_packet. */
  lemma HandledKeeps(s: State, w: nat)
    requires s.Core(Phase(1, w, 0, 0, 0)) && (w == 0 || s.isIn)
    ensures s.toHandle > 0 && HandledStep(s).Core(QUIET)
  {
    hide Ownership, InMemory, FullMarks, BusMarks, ValidTransfer, SlotOf;
  }

  // ---- completion of the transfer ---------------------------------------------------------------------------

  function CompleteStep(s: State): State {
    s.(tr := s.tr.(completed := true), ep := s.ep.(running := false),
       log := s.log.(completions := s.completions + 1))
  }

  lemma CompleteFinishes(s: State)
    requires s.Core(QUIET) && s.Client() && s.Tasks(0)
    requires !s.outstandingPacket && !s.packetQueued && s.toHandle == 0
    ensures CompleteStep(s).Finished()
  {
    hide InMemory;
    assert s.packetsDone == s.hwDone == s.Total();
    assert s.offset == |s.stream|;
    OldestHeldIsNext(s.doubleBuffered, s.base, s.hwDone, s.Given(), s.currentGiveBuffer, s.available);
    if s.isIn { EndOfStream(s.stream, s.chunkSize, s.chunkBuffer, s.chunks); }
  }

  lemma EndOfStream(stream: seq<Byte>, size: nat, buffer: seq<Byte>, chunks: seq<Chunk>)
    requires ClientIn(stream, size, |stream|, buffer, chunks)
    ensures ChunksUpTo(stream, size, chunks, |stream|)
  {
    hide ChunksUpTo;
    if |stream| % size != 0 {
      assert |stream| < |stream| - |stream| % size + size;
    }
  }

  /** A halted transfer is marked completed without calling on_complete. */
  function GiveUpStep(s: State): State {
    s.(tr := s.tr.(outstandingPacket := false, completed := true, toSubmit := 0, toHandle := 0), ep := s.ep.(running := false))
  }

  /** The state up to whether an OUT packet buffer is still marked valid, which nothing reads any more. */
  function WithoutBuffer(s: State): State {
    if s.isIn then s else s.(ep := s.ep.(buffer := s.buffer.(valid := false)))
  }

  lemma WithoutBufferKeeps(s: State)
    requires s.Core(QUIET)
    ensures WithoutBuffer(s).Core(QUIET) && WithoutBuffer(s).Client() == s.Client()
    ensures forall n :: WithoutBuffer(s).Tasks(n) == s.Tasks(n)
  {
    SameClient(s, WithoutBuffer(s));
    WithoutBufferKeepsCore(s, WithoutBuffer(s));
    hide State.Core, State.Client, State.Tasks;
  }

  lemma WithoutBufferKeepsCore(s: State, t: State)
    requires s.Core(QUIET) && t == s.(ep := s.ep.(buffer := t.buffer))
    requires t.buffer == s.buffer || (!s.isIn && !t.buffer.valid)
    ensures t.Core(QUIET)
  {
    hide Ownership, InMemory, FullMarks, BusMarks, ValidTransfer;
    assert t.Counts(QUIET) by { hide State.Registers, State.Memory; }
    assert t.Registers(QUIET) by { hide State.Counts, State.Memory; }
    assert t.Memory(QUIET) by { hide State.Registers, State.Counts; }
  }

  lemma FinishesWithoutBuffer(s: State)
    requires var t := WithoutBuffer(s); t.Core(QUIET) && t.Client() && t.Tasks(0)
    requires !s.outstandingPacket && !s.packetQueued && s.toHandle == 0
    ensures CompleteStep(s).Finished()
  {
    var t := WithoutBuffer(s);
    CompleteFinishes(t);
    hide State.Core, State.Client, ChunksUpTo;
  }

  /** What holds after a packet was completed with k completed packets being handled. */
  ghost predicate AfterPacket(s: State, t: State, k: nat) {
    && t.SameTransfer(s) && !t.packetQueued
    && (if t.completed then k == 0 && t.Finished() && (s.isIn ==> s.packetQueued)
        else t.Between(k) && (k == 0 ==> t.toHandle > 0 || t.outstandingPacket))
    && (!s.isIn && !s.packetQueued ==> !t.outstandingPacket)
    && (!s.packetQueued ==> t.ownedBufferCount <= s.ownedBufferCount)
  }

  lemma AfterDone(s: State, done: State, t: State, k: nat)
    requires done == s.(tr := s.tr.(outstandingPacket := false), hist := s.hist.(packetsDone := s.packetsDone + 1))
    requires AfterPacket(done, t, k)
    ensures AfterPacket(s, t, k)
  {
    hide State.Between, State.Finished;
  }

  lemma AfterLast(s: State, done: State, t: State, k: nat)
    requires done == s.(tr := s.tr.(outstandingPacket := false), hist := s.hist.(packetsDone := s.packetsDone + 1))
    requires t == CompleteStep(done) && t.Finished() && !s.packetQueued && k == 0 && !s.isIn
    ensures AfterPacket(s, t, k)
  {
  }

  lemma DoneKeepsTasks(s: State)
    ensures forall n :: DoneStep(s).Tasks(n) == s.Tasks(n)
  {
  }

  /** A packet is only queued behind another one, and in the other buffer. */
  lemma QueueLeavesOther(s: State)
    requires s.Core(Phase(1, 1, 0, 0, 1)) && s.outstandingPacket && s.Settled() && s.doubleBuffered && !s.packetQueued
    ensures 0 < s.toHandle < s.Total() && s.Slot(s.Total() - s.toHandle) != s.currentTakeBuffer
  {
    hide InMemory, ValidTransfer, State.Memory;
    assert s.hwDone <= s.Given() <= s.Total();
    var handled := s.Total() - s.toHandle;
    assert handled == s.hwDone - 1;
    if s.isIn {
      FirstChunkIsFilled(s);
    }
  }

  /** No IN packet is deferred while the first packet of the transfer is still at the hardware. */
  lemma FirstChunkIsFilled(s: State)
    requires s.Core(Phase(1, 1, 0, 0, 1)) && s.outstandingPacket && s.Settled() && s.doubleBuffered && s.isIn
    ensures s.hwDone >= 2
  {
    hide InMemory, ValidTransfer, State.Memory, State.Registers;
    assert s.hwDone >= 1 && s.packetsDone == s.Given() < s.Total();
    if s.packetsDone == 1 { DivModUnique(64, s.chunkSize, 0, 64); }
  }

  lemma QueuePacketKeepsRest(s: State)
    requires s.Core(Phase(1, 1, 0, 0, 1)) && s.outstandingPacket && s.Settled() && s.doubleBuffered && !s.packetQueued
    requires s.Client() && s.Tasks(1)
    ensures QueuePacketStep(s).Running()
  {
    QueueLeavesOther(s);
    QueuePacketKeeps(s);
    hide Ownership, InMemory, FullMarks, BusMarks, ValidTransfer, State.Core;
    SameClient(s, QueuePacketStep(s));
    hide State.Client, State.Tasks;
  }

  /** What an IN packet asks of the client. */
  lemma InPacketRequest(s: State, k: nat)
    requires s.Core(Phase(k, 0, 0, 0, 0)) && s.outstandingPacket && s.isIn && s.ServedToOffset() && s.toSubmit > 0
    ensures s.chunkSize > 0 && |s.chunkBuffer| == s.chunkSize && s.offset == 64 * s.packetsDone < |s.stream| == s.transferLength
    ensures ChunkOffset(s.offset, s.chunkSize) == s.offset % s.chunkSize
    ensures s.offset % s.chunkSize == 0 ==>
      && Add(s.offset, s.chunkSize) == s.offset + s.chunkSize
      && s.chunkSize * |s.chunks| == s.offset
    ensures s.offset % s.chunkSize != 0 ==> s.Ready()
  {
    hide Ownership, InMemory, FullMarks, BusMarks, SlotOf, ChunkOffset, State.Registers, State.Memory;
    assert s.Given() < s.Total();
    ChunkArithmetic(s.isIn, |s.stream|, s.chunkSize, s.packetsDone);
  }

  lemma QueueStepKeeps(s: State, n: nat, ph: Phase)
    requires s.Core(ph)
    ensures QueueStep(s, n).Core(ph)
    ensures QueueStep(s, n).Client() == s.Client() && QueueStep(s, n).Settled() == s.Settled()
  {
    hide State.Core, ClientIn, ClientOut;
    ClientWorkKeepsCore(s, QueueStep(s, n), ph);
  }

  /** An IN packet deferred at the start of its chunk. */
  lemma DeferredIn(s: State, t: State, k: nat, n: nat)
    requires s.Core(Phase(k, 0, 0, 0, 0)) && s.outstandingPacket && !s.packetQueued && s.isIn && s.toSubmit > 0
    requires s.ServedToOffset() && s.Tasks(0) && s.chunkSize > 0 && s.offset % s.chunkSize == 0
    requires (s.ownedBufferCount < 2 || s.offset == 0) && s.completeExpected
    requires n == Min(s.chunkSize, |s.stream| - s.offset)
    requires t == if s.picoboot then QueueStep(s, n) else s
    ensures t.Between(k) && t.SameTransfer(s)
  {
    InPacketRequest(s, k);
    CoreBasics(s, Phase(k, 0, 0, 0, 0));
    if s.picoboot { QueueStepKeeps(s, n, Phase(k, 0, 0, 0, 0)); }
    hide State.Core, State.Tasks, ChunkOffset, ClientIn;
    assert s.Client();
    if s.picoboot { QueueKeeps(s, t, n, |s.chunks|); } else { assert t.Tasks(1) by { NoTasks(s); } }
  }

  lemma MailboxFree(s: State)
    requires s.Tasks(0) && s.picoboot
    ensures s.mailbox == [] && s.working == []
  {
  }

  lemma NoTasks(s: State)
    requires !s.picoboot
    ensures forall n :: s.Tasks(n)
  {
  }

  /** An OUT packet deferred with the chunk it completes. */
  lemma DeferredOut(s: State, t: State, k: nat, n: nat)
    requires s.Core(Phase(k, 0, 0, 0, 0)) && s.outstandingPacket && !s.packetQueued && !s.isIn && k == 1
    requires s.ServedToOffset() && s.Tasks(0) && CanCopy(s)
    requires n != 0 && n == OutChunkLength(s.offset, s.transferLength, s.chunkSize) && s.OutMayStart() && s.completeExpected
    requires t == if s.picoboot then QueueStep(OutPacketStep(s), n) else OutPacketStep(s)
    ensures t.Between(k) && t.SameTransfer(s)
  {
    hide State.Core;
    OutPacketKeeps(s, k);
    LastOfItsChunk(s);
    QueueStepKeeps(OutPacketStep(s), n, Phase(k, 0, 0, 0, 0));
    hide State.Tasks, State.Ready, State.ServedToOffset, ChunkOffset, Copied, OutChunkLength, ClientOut, AcquireOut;
    if s.picoboot { QueueChunk(s, t, n); } else { assert t.Tasks(1) by { NoTasks(t); } }
  }

  /** The task of a chunk that has just been collected. */
  lemma QueueChunk(s: State, t: State, n: nat)
    requires s.Tasks(0) && s.picoboot && !s.isIn && |t.chunks| == |s.chunks| + 1
    requires ChunkAt(s.stream, s.chunkSize, |s.chunks|, t.chunks[|s.chunks|]) && t.chunks[|s.chunks|].len == n
    requires t.isIn == s.isIn && t.stream == s.stream && t.chunkSize == s.chunkSize && t.firstAddress == s.firstAddress
    requires t.pb == QueueStep(s, n).pb && t.tasks == QueueStep(s, n).tasks
    ensures t.Tasks(1)
  {
    QueueKeeps(s, t, n, |s.chunks|);
  }

  /** An OUT packet that completes a chunk is deferred with every other buffer given. */
  lemma LastOfItsChunk(s: State)
    requires s.Core(Phase(1, 0, 0, 0, 0)) && s.outstandingPacket && !s.packetQueued && !s.isIn && s.OutMayStart()
    requires OutChunkLength(s.offset, s.transferLength, s.chunkSize) != 0
    ensures s.EndsChunk() && s.OthersGiven()
  {
    hide Ownership, InMemory, FullMarks, BusMarks, ValidTransfer, SlotOf, OutChunkLength, State.Memory;
    OutstandingPacketData(s, 1);
    OutLengths(|s.stream|, s.chunkSize, s.packetsDone);
  }

  /** A packet queued behind a deferred OUT packet starts a chunk. */
  lemma QueuedStartsChunk(s: State)
    requires s.Core(Phase(0, 0, 1, 0, 0)) && s.outstandingPacket && s.packetQueued && !s.isIn && s.EndsChunk()
    ensures s.offset % s.chunkSize == 0
  {
    hide InMemory, ValidTransfer;
    assert s.hwDone == s.packetsDone + 2 <= s.Total();
  }

  /** What completing a packet needs to be able to touch. */
  ghost predicate CanComplete(s: State) {
    && CanAdvance(s) && s.transferLength == |s.stream| && ValidTransfer(s.isIn, |s.stream|, s.chunkSize)
    && s.offset == 64 * s.packetsDone < |s.stream| && (if s.isIn then !s.buffer.valid else AcquireOut(s).len > 0)
    && RightlyFull(s)
  }

  lemma CompletionRegisters(s: State)
    requires CanComplete(s)
    ensures ChunkOffset(s.offset, s.chunkSize) == s.offset % s.chunkSize
    ensures Add(s.offset, 64) == s.offset + 64
  {
    hide ChunkOffset;
    ChunkArithmetic(s.isIn, |s.stream|, s.chunkSize, s.packetsDone);
  }

  // ---- starting and resetting ---------------------------------------------------------------------------------

  /** usb_stream_setup_transfer, usb_reset_transfer and the bookkeeping of usb_start_transfer. */
  function StartStep(s: State, stream: seq<Byte>, size: nat, address: int): State {
    var n := PacketCount(|stream|);
    State(s.ep.(running := true),
          UsbTransfer(n, n, false, false, false, 0, |stream|, size, seq(size, i => 0), false),
          TaskQueue(s.picoboot, address, [], []), s.hw, Log(stream, [], [], [], 0, 0),
          History(s.currentGiveBuffer, 0, 0, s.acked, address))
  }

  lemma StartKeeps(s: State, stream: seq<Byte>, size: nat, address: int)
    requires s.Idle() && ValidStream(s.isIn, s.doubleBuffered, |stream|, size)
    ensures var t := StartStep(s, stream, size, address);
      t.Core(QUIET) && t.Client() && t.Tasks(0) && t.toSubmit == t.toHandle > 0
  {
    AddSmall(|stream|, 63);
    var t := StartStep(s, stream, size, address);
    assert |t.chunkBuffer| == size;
    assert t.Client() by { hide ValidTransfer; }
    assert t.Counts(QUIET) && t.Registers(QUIET) && t.Memory(QUIET) by { hide ValidTransfer; }
  }

  /** An idle IN endpoint, the stream started on it, and its first packet given after the client filled the chunk at
      once. */
  ghost function FirstGiven(s: State, stream: seq<Byte>, size: nat, address: int): State
    requires s.Idle() && s.isIn && ValidTransfer(true, |stream|, size)
  {
    var t := CallStep(StartStep(s, stream, size, address));
    FirstPacketSteps(s, stream, size, address);
    GiveStep(DoneStep(AdvanceStep(FillStep(t))))
  }

  lemma FirstPacketSteps(s: State, stream: seq<Byte>, size: nat, address: int)
    requires s.Idle() && s.isIn && ValidTransfer(true, |stream|, size)
    ensures var t := CallStep(StartStep(s, stream, size, address));
      && t.offset == 0 < |stream| && |t.chunkBuffer| == t.chunkSize == size > 0
      && CanAdvance(FillStep(t)) && t.nextPid < 2 && t.ownedBufferCount > 0 && t.toSubmit == t.Total() > 0
  {
    AddSmall(|stream|, 63);
  }

  /** When the engine would pass on a packet while another is outstanding: the first packet of an IN stream is given,
      giving tops up the buffers and asks for the second packet, its client defers it, and the loop that gave the first
      packet goes on. It takes a second buffer, a second packet, and a second chunk; a chunk of two packets rules it
      out. */
  lemma ChunkFloorExact(s: State, stream: seq<Byte>, size: nat, address: int)
    requires s.Idle() && s.isIn && ValidTransfer(true, |stream|, size)
    ensures var t := FirstGiven(s, stream, size, address);
      && t.chunkSize == size
      && (t.toSubmit > 0 && t.ownedBufferCount > 0 && InChunkLength(t.offset, t.transferLength, size) != 0
          <==> !ValidStream(true, s.doubleBuffered, |stream|, size))
  {
    FirstPacketSteps(s, stream, size, address);
    var t := FirstGiven(s, stream, size, address);
    assert t.offset == Min(64, |stream|) && t.toSubmit == t.Total() - 1 && t.ownedBufferCount == BufferCount(s.doubleBuffered) - 1;
    if |stream| > 64 {
      SecondChunkRequest(|stream|, size);
    }
  }

  lemma SecondChunkRequest(length: nat, size: nat)
    requires ValidTransfer(true, length, size) && 64 < length
    ensures InChunkLength(64, length, size) != 0 <==> size < 128
  {
    ChunkArithmetic(true, length, size, 1);
    if size >= 128 { DivModUnique(64, size, 0, 64); }
  }

  /** _usb_reset_buffers: aborting one held buffer takes back its toggle of the data PID. The hardware may select
      either buffer afterwards. */
  function ResetBuffersStep(s: State, selector: nat): State
    requires |s.available| == 2 && s.nextPid < 2
  {
    s.(ep := ResetEp(s.ep, s.available[0] || s.available[1]), hw := ResetHw(s.hw, selector))
  }

  function ResetEp(ep: UsbEp, aborting: bool): UsbEp
    requires ep.nextPid < 2
  {
    var toggle := aborting && (!ep.doubleBuffered || ep.ownedBufferCount == 1);
    ep.(nextPid := if toggle then 1 - ep.nextPid else ep.nextPid, ownedBufferCount := BufferCount(ep.doubleBuffered),
        currentGiveBuffer := 0, currentTakeBuffer := 0, firstBufferAfterReset := true)
  }

  function ResetHw(hw: Hardware, selector: nat): Hardware {
    hw.(available := [false, false], full := [false, false], data1 := [false, false], selector := selector)
  }

  function ResetStep(s: State, selector: nat): State
    requires |s.available| == 2 && s.nextPid < 2
  {
    var t := ResetBuffersStep(s, selector);
    t.(ep := t.ep.(buffer := t.buffer.(valid := false), running := false, halted := false))
  }

  /** A hard reset also starts counting from DATA0 again, as the host does. */
  function HardResetStep(s: State, selector: nat): State
    requires |s.available| == 2 && s.nextPid < 2
  {
    var t := ResetStep(s, selector);
    t.(ep := t.ep.(nextPid := 0), hw := t.hw.(hostData1 := false), hist := t.hist.(acked := 0))
  }

  /** After a reset the next data PID is the parity of the packets actually completed, however many were aborted. */
  lemma ResetKeepsPid(s: State, selector: nat)
    requires (s.Running() || s.Idle() || s.Aborted()) && selector < 2
    ensures |s.available| == 2 && s.nextPid < 2
    ensures ResetStep(s, selector).Idle() && HardResetStep(s, selector).Idle()
  {
    hide State.Running, State.Aborted;
    BuffersHeld(s);
    TakenBack(s.nextPid, s.acked, s.HeldCount(), s.doubleBuffered, s.ownedBufferCount);
    ResetIsIdle(s, ResetStep(s, selector));
    ResetIsIdle(s, HardResetStep(s, selector));
    hide State.Idle;
  }

  lemma ResetIsIdle(s: State, t: State)
    requires |s.slotData| == 2 && t.nextPid == t.acked % 2 && t.hostData1 == (t.acked % 2 == 1)
    requires !t.running && !t.halted && t.ownedBufferCount == BufferCount(t.doubleBuffered) && t.currentGiveBuffer == 0
    requires t.firstBufferAfterReset && !t.buffer.valid
    requires t.hw == ResetHw(s.hw, t.selector).(hostData1 := t.hostData1) && t.selector < 2
    ensures t.Idle()
  {
  }

  lemma TakenBack(pid: nat, acked: nat, held: nat, doubled: bool, owned: nat)
    requires pid == (acked + held) % 2 && owned + held == BufferCount(doubled)
    ensures (if held > 0 && (!doubled || owned == 1) then 1 - pid else pid) == acked % 2
  {
  }

  /** Whatever an endpoint is doing, its data PID is ahead by the packets the hardware holds. */
  lemma BuffersHeld(s: State)
    requires s.Running() || s.Idle() || s.Aborted()
    ensures |s.available| == |s.full| == |s.data1| == |s.slotData| == 2 && s.hostData1 == (s.acked % 2 == 1)
    ensures s.ownedBufferCount + s.HeldCount() == BufferCount(s.doubleBuffered) && s.nextPid == (s.acked + s.HeldCount()) % 2
    ensures s.HeldCount() > 0 <==> s.available[0] || s.available[1]
  {
    if s.Running() {
      HeldIsCounted(s);
      HostFollows(s);
    }
    hide State.Core, State.Client, State.Settled, State.Tasks;
  }

  lemma HostFollows(s: State)
    requires s.Core(QUIET)
    ensures |s.data1| == 2 && s.hostData1 == (s.acked % 2 == 1)
  {
    hide InMemory, Ownership, FullMarks, ValidTransfer;
  }

  /** Halting the endpoint while a chunk is pending, and completing the packet. */
  lemma HaltAborts(s: State, pb: TaskQueue)
    requires s.Running() && s.outstandingPacket && pb.picoboot == s.picoboot && pb.mailbox == pb.working == []
    ensures var t := s.(ep := s.ep.(halted := true), pb := pb);
      CanComplete(t) && GiveUpStep(AdvanceStep(t)).Aborted()
    ensures |s.available| == 2 && s.HeldCount() == s.Held()
  {
    CanCompleteDeferred(s);
    HeldIsCounted(s);
    hide State.Running, State.Aborted, ValidTransfer, ChunkOffset;
    var t := s.(ep := s.ep.(halted := true), pb := pb);
    var u := GiveUpStep(AdvanceStep(t));
    GivenUp(s, u);
  }

  /** A halted transfer has been given up while its packet was filled or taken. */
  lemma GivenUp(s: State, u: State)
    requires s.Running() && s.outstandingPacket && u.mailbox == u.working == [] && u.hist == s.hist && u.log == s.log
    requires u.ep == s.ep.(running := false, halted := true, buffer := u.buffer)
    requires u.completed && u.toSubmit == u.toHandle == 0 && !u.outstandingPacket
    requires u.hw == s.hw.(slotData := u.slotData) && |u.slotData| == |s.slotData|
    requires forall i :: 0 <= i < |s.slotData| && i != s.currentGiveBuffer ==> u.slotData[i] == s.slotData[i]
    ensures u.Aborted()
  {
    HeldIsCounted(s);
    HeldPacket(s);
    CoreBasics(s, QUIET);
    hide State.Core, State.Client, State.Settled, State.Tasks;
  }

  /** Beside a deferred packet at most one packet is at the hardware: the next one of the stream, not in the buffer
      that is given next. */
  lemma HeldPacket(s: State)
    requires s.Core(QUIET) && s.outstandingPacket
    ensures s.ownedBufferCount >= 1 && s.currentGiveBuffer < 2 && s.wire == s.stream[..Position(|s.stream|, s.hwDone)]
    ensures s.isIn ==> s.hwDone + s.Held() <= s.packetsDone
    ensures s.Held() > 0 ==>
      && 64 * s.hwDone < |s.stream| && |s.available| == 2 && |s.slotData| == 2 && s.selector < 2 && CanMove(s.ep, s.hw)
      && var slot := Selected(s.doubleBuffered, s.selector);
         slot != s.currentGiveBuffer && (s.isIn ==> s.slotData[slot] == Packet(s.stream, s.hwDone))
  {
    HardwareReports(s);
    hide ValidTransfer, State.Bus, MarkedFull;
    if s.Held() > 0 && s.isIn {
      InMemoryDrop(s.doubleBuffered, s.base, s.stream, s.hwDone, s.Given(), s.slotData);
    }
  }

  /** A packet completes on the bus after its transfer was given up. */
  function LateStep(s: State): State
    requires |s.available| == 2 && |s.slotData| == 2 && |s.full| == 2 && s.selector < 2
  {
    var slot := Selected(s.doubleBuffered, s.selector);
    var data := s.PacketData(s.hwDone);
    s.(hw := MovedFrom(s, slot, data),
       log := s.log.(wire := s.wire + (if s.isIn then s.slotData[slot] else data)),
       hist := s.hist.(hwDone := s.hwDone + 1, acked := s.acked + 1))
  }

  /** _usb_handle_transfer without a transfer: the buffer is owned again and the endpoint halted. */
  function UnexpectedStep(s: State): State {
    s.(ep := s.ep.(ownedBufferCount := s.ownedBufferCount + 1, halted := true))
  }

  /** Nothing but the bus notices a late completion. */
  lemma LateKeeps(s: State)
    requires s.Aborted() && CanMove(s.ep, s.hw)
    ensures var t := UnexpectedStep(LateStep(s)); t.Aborted() && t.HeldCount() == 0
  {
    PacketAppend(s.stream, s.hwDone);
  }

  /** Beside a deferred packet, the hardware has a buffer: there are two, the other one is not waiting to be taken up,
      and it was given, after the first chunk of an IN transfer and unless an OUT packet is the last one. */
  predicate OtherAtHardware(s: State) {
    s.doubleBuffered && !s.packetQueued && if s.isIn then s.offset > 0 else s.offset + 64 < s.transferLength
  }

  lemma OtherAtHardwareExact(s: State)
    requires s.Running() && s.outstandingPacket && 128 <= s.chunkSize
    ensures s.Held() > 0 <==> OtherAtHardware(s)
  {
    hide InMemory, ValidTransfer, Ownership, SlotOf, ClientIn, ClientOut, State.Memory;
    var p := s.packetsDone;
    assert s.offset == Position(|s.stream|, p) && (if s.isIn then p < s.Total() else s.hwDone == p + 1 + s.Queued());
    if !s.isIn { assert s.hwDone <= s.Given() <= s.Total(); }
  }

  /** When the debug assertion of usb_device.c that the endpoint is not halted at a completion can fail: if a task
      fails, a completion can come afterwards exactly if the other buffer was at the hardware. */
  lemma LateCompletionExact(s: State, pb: TaskQueue)
    requires s.Running() && s.outstandingPacket && pb.picoboot == s.picoboot && pb.mailbox == pb.working == []
    requires 128 <= s.chunkSize
    ensures var t := s.(ep := s.ep.(halted := true), pb := pb);
      && CanComplete(t)
      && var u := GiveUpStep(AdvanceStep(t));
      && u.halted && |u.available| == 2
      && ((u.available[0] || u.available[1]) <==> OtherAtHardware(s))
  {
    HaltAborts(s, pb);
    OtherAtHardwareExact(s);
    HeldIsCounted(s);
    hide State.Core, ClientIn, ClientOut, ValidTransfer, OtherAtHardware, State.Settled;
  }

  /** The AVAIL bits set are the packets held. */
  lemma HeldIsCounted(s: State)
    requires s.Core(QUIET)
    ensures |s.available| == 2 && |s.slotData| == 2 && |s.full| == 2 && s.nextPid < 2 && s.HeldCount() == s.Held()
    ensures s.ownedBufferCount + s.Held() == BufferCount(s.doubleBuffered) && s.nextPid == (s.acked + s.Held()) % 2
    ensures !s.doubleBuffered ==> !s.available[1]
  {
    hide InMemory, ValidTransfer;
  }

  /** A deferred packet whose chunk is now dealt with can be completed. */
  lemma DeferredOutReady(s: State)
    requires s.Running() && s.outstandingPacket && !s.isIn
    ensures s.Ready()
  {
    CoreBasics(s, QUIET);
    hide ClientOut, State.Core;
  }

  lemma DeferredInReady(s: State)
    requires s.Running() && s.outstandingPacket && s.isIn
    ensures s.offset < |s.stream| && |s.chunkBuffer| == s.chunkSize
    ensures FillStep(s).Core(QUIET) && FillStep(s).Ready()
  {
    CoreBasics(s, QUIET);
    FillKeeps(s, 0);
  }

  lemma CanCompleteDeferred(s: State)
    requires s.Running() && s.outstandingPacket
    ensures CanComplete(s)
  {
    hide Ownership, InMemory, FullMarks, BusMarks, SlotOf, ClientIn, ClientOut;
    OutstandingPacketData(s, 0);
    OutstandingIsRightlyFull(s, 0);
    if s.isIn { ChunkArithmetic(s.isIn, |s.stream|, s.chunkSize, s.packetsDone); ModLe(s.offset, s.chunkSize); }
  }

  /** The length of the pending task is the length of the pending chunk. */
  function PendingLength(s: State): nat {
    if |s.tasks| > 0 then s.tasks[|s.tasks| - 1].length else 0
  }

  lemma FinishTask(s: State, t: State)
    requires s.Running() && s.outstandingPacket && s.picoboot
    requires t.isIn == s.isIn && t.stream == s.stream && t.chunkSize == s.chunkSize && t.firstAddress == s.firstAddress
    requires t.tasks == s.tasks && t.pb == TaskDoneStep(s, PendingLength(s)).pb
    requires |t.chunks| == (if s.isIn then |s.chunks| + 1 else |s.chunks|)
    ensures t.Tasks(0)
  {
    var i := |s.tasks| - 1;
    assert s.tasks[i] == s.PlannedTask(i);
    TaskInStream(s);
    TaskDoneKeeps(s, t, PendingLength(s));
  }

  lemma TaskInStream(s: State)
    requires s.Running() && s.outstandingPacket && s.picoboot
    ensures |s.tasks| > 0 && s.chunkSize * (|s.tasks| - 1) < |s.stream|
    ensures s.working != [] ==> s.mailbox == [] && s.working == [s.tasks[|s.tasks| - 1]]
  {
    var i := |s.tasks| - 1;
    if s.isIn {
      InPacketRequest(s, 0);
    } else {
      assert ChunkAt(s.stream, s.chunkSize, i, s.chunks[i]);
    }
  }

  lemma StartedBusy(s: State)
    requires s.Core(QUIET) && s.hwDone == 0
    ensures s.toHandle > 0
  {
    hide InMemory, Ownership;
  }

  lemma OtherTasksKeepCore(s: State, pb: TaskQueue)
    requires s.Core(QUIET)
    ensures var t := s.(pb := pb);
      t.Core(QUIET) && t.Ready() == s.Ready() && t.Client() == s.Client() && t.Settled() == s.Settled()
  {
    hide State.Core, Filled, ClientOut, ClientIn;
    ClientWorkKeepsCore(s, s.(pb := pb), QUIET);
  }

  /** Taking the task out of the mailbox. */
  lemma MailboxKeeps(s: State)
    requires s.Running() && s.picoboot && s.mailbox != []
    ensures |s.mailbox| == 1 && s.(pb := s.pb.(mailbox := [], working := s.mailbox)).Running()
  {
    hide State.Core, State.Client, State.Settled;
    OtherTasksKeepCore(s, s.pb.(mailbox := [], working := s.mailbox));
  }
}
