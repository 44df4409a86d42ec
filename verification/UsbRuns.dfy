/** Whole runs of an endpoint: any interleaving of hardware interrupts and chunk completions, until the transfer
    finishes. Each run is a method whose loop picks the next event freely. */
module UsbRuns {
  import opened Bits
  import opened StreamSpec
  import opened EngineSpec
  import opened EngineState
  import opened UsbEndpoint

  /** What is still to happen in a transfer: packets to complete on the bus and packets to finish for the client. */
  ghost function Remaining(s: State): int { 2 * s.Total() - s.hwDone - s.packetsDone }

  lemma RemainingBounds(s: State)
    requires s.Running() || s.Finished()
    ensures Remaining(s) >= 0
  {
    if s.Running() {
      hide InMemory, ValidTransfer, ClientIn, ClientOut;
      assert s.hwDone <= s.Given() <= s.Total() && s.packetsDone <= s.Total();
    }
  }

  /** A running transfer that defers no packet has one that the hardware can move. */
  lemma SomethingAtHardware(s: State)
    requires s.Running() && !s.outstandingPacket
    ensures CanMove(s.ep, s.hw)
  {
    Progress(s);
    HardwareReports(s);
    hide State.Core;
  }

  lemma FinishedStream(s: State)
    requires s.Finished()
    ensures Flatten(s.chunks) == s.stream
  {
    ChunksFlatten(s.stream, s.chunkSize, s.chunks, |s.stream|);
    assert s.stream[..|s.stream|] == s.stream;
  }

  function Packets(stream: seq<Byte>): nat { (|stream| + 63) / 64 }

  /** A transfer of a client that finishes any chunk at once or later, on an endpoint in whatever state earlier
      transfers have left it. It ends after at most twice as many events as packets, with the sender's bytes on the bus
      and in the client's chunks, and the endpoint idle again. */
  method RunTransfer(endpoint: Endpoint, stream: seq<Byte>, chunkSize: nat)
    returns (wire: seq<Byte>, chunks: seq<Chunk>, onPacketCalls: nat, completions: nat,
             events: nat)
    requires endpoint.View().Idle() && !endpoint.pb.picoboot
    requires ValidStream(endpoint.ep.isIn, endpoint.ep.doubleBuffered, |stream|, chunkSize)
    modifies endpoint
    ensures wire == stream && Flatten(chunks) == stream && (!endpoint.ep.isIn ==> ZeroTails(chunks, chunkSize))
    ensures onPacketCalls == Packets(stream) && completions == 1
    ensures events <= 2 * Packets(stream)
    ensures endpoint.View().Idle() && endpoint.hist.acked == old(endpoint.hist.acked) + Packets(stream)
    ensures endpoint.ep.isIn == old(endpoint.ep.isIn) && endpoint.ep.doubleBuffered == old(endpoint.ep.doubleBuffered)
    ensures !endpoint.pb.picoboot
  {
    hide State.Running, State.Finished, State.Idle, ValidStream;
    endpoint.StartTransfer(stream, chunkSize, 0);
    events := 0;
    RunningBasics(endpoint.View());
    while !endpoint.tr.completed
      invariant if endpoint.tr.completed then endpoint.View().Finished() else endpoint.View().Running()
      invariant endpoint.log.stream == stream && endpoint.tr.chunkSize == chunkSize
      invariant endpoint.ep.isIn == old(endpoint.ep.isIn) && endpoint.ep.doubleBuffered == old(endpoint.ep.doubleBuffered)
      invariant !endpoint.pb.picoboot && endpoint.hist.acked == old(endpoint.hist.acked) + endpoint.hist.hwDone
      invariant events + Remaining(endpoint.View()) <= 2 * endpoint.View().Total()
      decreases Remaining(endpoint.View())
    {
      TransferEvent(endpoint);
      events := events + 1;
    }
    RunningBasics(endpoint.View());
    FinishedStream(endpoint.View());
    FinishedBasics(endpoint.View());
    wire, chunks := endpoint.log.wire, endpoint.log.chunks;
    onPacketCalls, completions := endpoint.log.onPacketCalls, endpoint.log.completions;
  }

  /** Either the client finishes the chunk it has deferred, or a packet completes on the bus. */
  method TransferEvent(endpoint: Endpoint)
    requires endpoint.View().Running() && !endpoint.pb.picoboot
    modifies endpoint
    ensures if endpoint.tr.completed then endpoint.View().Finished() else endpoint.View().Running()
    ensures endpoint.View().SameStream(old(endpoint.View()))
    ensures Remaining(endpoint.View()) < Remaining(old(endpoint.View())) && Remaining(old(endpoint.View())) >= 0
    ensures endpoint.hist.acked - endpoint.hist.hwDone == old(endpoint.hist.acked - endpoint.hist.hwDone)
  {
    hide State.Running, State.Finished;
    if !endpoint.tr.outstandingPacket { SomethingAtHardware(endpoint.View()); }
    RunningBasics(endpoint.View());
    var workerFirst: bool := *;
    if endpoint.tr.outstandingPacket && (workerFirst || !CanMove(endpoint.ep, endpoint.hw)) {
      var data := ClientChunk(endpoint, endpoint.log.stream);
      endpoint.ChunkDone(data);
    } else {
      var asserted := endpoint.HardwareCompletes();
      assert asserted;
    }
    RunningBasics(endpoint.View());
  }

  /** Transfers one after the other: each arrives whole, and the data PID goes on from the packets of all of them. */
  method RunTransfers(endpoint: Endpoint, streams: seq<seq<Byte>>, chunkSize: nat)
    returns (wires: seq<seq<Byte>>, chunks: seq<seq<Chunk>>)
    requires endpoint.View().Idle() && !endpoint.pb.picoboot
    requires forall s :: s in streams ==> ValidStream(endpoint.ep.isIn, endpoint.ep.doubleBuffered, |s|, chunkSize)
    modifies endpoint
    ensures wires == streams && |chunks| == |streams|
    ensures forall i :: 0 <= i < |streams| ==> Flatten(chunks[i]) == streams[i]
    ensures endpoint.View().Idle() && endpoint.ep.nextPid == (old(endpoint.hist.acked) + AllPackets(streams)) % 2
  {
    hide State.Idle, ValidStream, Flatten;
    wires, chunks := [], [];
    for n := 0 to |streams|
      invariant endpoint.View().Idle() && !endpoint.pb.picoboot
      invariant endpoint.ep.isIn == old(endpoint.ep.isIn) && endpoint.ep.doubleBuffered == old(endpoint.ep.doubleBuffered)
      invariant wires == streams[..n] && |chunks| == n
      invariant forall i :: 0 <= i < n ==> Flatten(chunks[i]) == streams[i]
      invariant endpoint.hist.acked == old(endpoint.hist.acked) + AllPackets(streams[..n])
    {
      var wire, received, _, _, _ := RunTransfer(endpoint, streams[n], chunkSize);
      wires, chunks := wires + [wire], chunks + [received];
      assert streams[..n + 1] == streams[..n] + [streams[n]];
      assert streams[..n + 1][..n] == streams[..n];
    }
    assert streams[..|streams|] == streams;
    IdlePid(endpoint.View());
  }

  function AllPackets(streams: seq<seq<Byte>>): nat {
    if |streams| == 0 then 0 else AllPackets(streams[..|streams| - 1]) + Packets(streams[|streams| - 1])
  }

  /** What a client that has `stream` to send puts into its next chunk. */
  method ClientChunk(endpoint: Endpoint, stream: seq<Byte>) returns (data: seq<Byte>)
    requires endpoint.tr.offset <= |stream| && endpoint.log.stream == stream
    ensures data == ChunkData(endpoint.View())
  {
    data := stream[endpoint.tr.offset..endpoint.tr.offset + Min(endpoint.tr.chunkSize, |stream| - endpoint.tr.offset)];
  }

  lemma RunningBasics(s: State)
    requires s.Running() || s.Finished()
    ensures s.completed == s.Finished() && s.completed == !s.Running()
    ensures Remaining(s) >= 0 && |s.available| == 2
    ensures s.Running() ==> s.offset <= |s.stream|
  {
    RemainingBounds(s);
    if s.Running() { CoreBasics(s, QUIET); hide State.Core; } else { hide State.Core; }
  }

  lemma FinishedBasics(s: State)
    requires s.Finished()
    ensures s.wire == s.stream && s.completions == 1 && s.onPacketCalls == s.Total()
    ensures (!s.isIn ==> ZeroTails(s.chunks, s.chunkSize)) && Remaining(s) >= 0 && s.Idle() && s.hwDone == s.Total()
  {
  }

  // ---- data PIDs over transfers and resets ---------------------------------------------------------

  /** What the observers of a finished transfer have seen. */
  datatype Delivery = Delivery(index: nat, wire: seq<Byte>, chunks: seq<Chunk>)

  /** Transfers finish at most once, in order, and each that finishes has arrived whole. */
  ghost predicate ArrivedWhole(deliveries: seq<Delivery>, isIn: bool, transfers: seq<seq<Byte>>, chunkSize: nat, started: nat) {
    && (forall i :: 0 <= i < |deliveries| ==>
          && deliveries[i].index < started <= |transfers| && deliveries[i].wire == transfers[deliveries[i].index]
          && Flatten(deliveries[i].chunks) == deliveries[i].wire && (!isIn ==> ZeroTails(deliveries[i].chunks, chunkSize)))
    && (forall i, j :: 0 <= i < j < |deliveries| ==> deliveries[i].index < deliveries[j].index)
  }

  /** Between events: the endpoint's state, and that a running transfer is the one started last and has not arrived. */
  ghost predicate BetweenEvents(s: State, deliveries: seq<Delivery>, transfers: seq<seq<Byte>>, chunkSize: nat, started: nat) {
    && (s.Running() || s.Idle() || s.Aborted()) && started <= |transfers|
    && (s.Running() ==> started > 0 && s.stream == transfers[started - 1] && s.chunkSize == chunkSize)
    && ArrivedWhole(deliveries, s.isIn, transfers, chunkSize, if s.Running() then started - 1 else started)
  }

  /** Any run of transfers, interrupts, chunk completions, failed tasks and resets, ended by a soft reset. Whatever has
      happened before, a transfer that finishes has arrived whole; and the next packet's data PID is the parity of the
      packets completed since the last hard reset. A packet may also complete late, after its transfer was given up;
      that is the only time the debug assertion of _usb_handle_transfer fails, and it takes a task that failed while
      the other buffer was at the hardware. A transfer never is `stuck`: while it waits for no chunk, the hardware can
      move a packet, whichever buffer it looked at before the last reset. `steps` bounds only the length of the run looked at. */
  method RunWithResets(isIn: bool, doubleBuffered: bool, picoboot: bool, transfers: seq<seq<Byte>>, chunkSize: nat,
                       steps: nat)
    returns (nextPid: nat, packets: nat, deliveries: seq<Delivery>, asserted: bool, late: nat, failuresBesideOther: nat,
             stuck: bool)
    requires forall i :: 0 <= i < |transfers| ==> ValidStream(isIn, doubleBuffered, |transfers[i]|, chunkSize)
    requires picoboot ==> 128 <= chunkSize
    ensures nextPid == packets % 2
    ensures ArrivedWhole(deliveries, isIn, transfers, chunkSize, |transfers|)
    ensures (asserted <==> late == 0) && late <= failuresBesideOther
    ensures !picoboot || !doubleBuffered ==> failuresBesideOther == 0
    ensures !stuck
  {
    hide State.Running, State.Idle, State.Aborted, State.Finished, ValidStream, BetweenEvents, ArrivedWhole, OtherAtHardware;
    var endpoint := new Endpoint(isIn, doubleBuffered, picoboot);
    packets, deliveries, asserted, late, failuresBesideOther, stuck := 0, [], true, 0, 0, false;
    var started := 0;
    NothingArrived(endpoint.View(), transfers, chunkSize);
    for step := 0 to steps
      invariant BetweenEvents(endpoint.View(), deliveries, transfers, chunkSize, started)
      invariant fresh(endpoint) && packets == endpoint.hist.acked && started <= |transfers|
      invariant endpoint.ep.isIn == isIn && endpoint.ep.doubleBuffered == doubleBuffered && endpoint.pb.picoboot == picoboot
      invariant (asserted <==> late == 0) && late + LateToCome(endpoint.View()) <= failuresBesideOther
      invariant (!picoboot || !doubleBuffered ==> failuresBesideOther == 0) && !stuck
    {
      EndpointBasics(endpoint.View(), deliveries, transfers, chunkSize, started);
      ghost var s := endpoint.View();
      var standsStill := StandsStill(endpoint);
      stuck := stuck || standsStill;
      var event: nat := *;
      if event < 2 {
        endpoint.ResetEndpoint(event == 0);
        if event == 0 { packets := 0; }
        NotFinished(s, endpoint.View(), deliveries, transfers, chunkSize, started);
      } else if event == 2 && CanMove(endpoint.ep, endpoint.hw) {
        var holds := endpoint.HardwareCompletes();
        asserted, packets := asserted && holds, packets + 1;
        if !holds { late := late + 1; }
        deliveries := Collect(endpoint, s, deliveries, transfers, chunkSize, started);
      } else if !endpoint.ep.running {
        if !endpoint.ep.halted && started < |transfers| {
          endpoint.StartTransfer(transfers[started], chunkSize, 0);
          started := started + 1;
          NextStarted(s, endpoint.View(), deliveries, transfers, chunkSize, started);
        }
      } else {
        var beside;
        deliveries, beside := ClientEvent(endpoint, event == 3, deliveries, transfers, chunkSize, started);
        if beside { failuresBesideOther := failuresBesideOther + 1; }
      }
      EndpointBasics(endpoint.View(), deliveries, transfers, chunkSize, started);
    }
    EndpointBasics(endpoint.View(), deliveries, transfers, chunkSize, started);
    endpoint.ResetEndpoint(false);
    IdlePid(endpoint.View());
    nextPid := endpoint.ep.nextPid;
  }

  /** Whether a transfer waits for no chunk and the hardware can move no packet. */
  method StandsStill(endpoint: Endpoint) returns (stuck: bool)
    requires endpoint.ep.running == endpoint.View().Running()
    ensures !stuck
  {
    hide State.Running;
    stuck := false;
    if endpoint.ep.running && !endpoint.tr.outstandingPacket {
      SomethingAtHardware(endpoint.View());
      stuck := !CanMove(endpoint.ep, endpoint.hw);
    }
  }

  /** PICOBOOT's worker takes, finishes or fails a task, or another client finishes its chunk. `beside` says whether
      a task failed beside a buffer at the hardware. */
  method ClientEvent(endpoint: Endpoint, take: bool, deliveries: seq<Delivery>, ghost transfers: seq<seq<Byte>>,
                     ghost chunkSize: nat, started: nat) returns (more: seq<Delivery>, beside: bool)
    requires BetweenEvents(endpoint.View(), deliveries, transfers, chunkSize, started) && endpoint.View().Running()
    requires endpoint.pb.picoboot ==> 128 <= chunkSize
    modifies endpoint
    ensures BetweenEvents(endpoint.View(), more, transfers, chunkSize, started)
    ensures endpoint.hist.acked == old(endpoint.hist.acked) && endpoint.pb.picoboot == old(endpoint.pb.picoboot)
    ensures endpoint.ep.isIn == old(endpoint.ep.isIn) && endpoint.ep.doubleBuffered == old(endpoint.ep.doubleBuffered)
    ensures LateToCome(endpoint.View()) == if beside then 1 else 0
    ensures beside ==> endpoint.pb.picoboot && endpoint.ep.doubleBuffered
  {
    hide State.Running, State.Idle, State.Aborted, State.Finished, BetweenEvents, ArrivedWhole, OtherAtHardware;
    ghost var s := endpoint.View();
    EndpointBasics(s, deliveries, transfers, chunkSize, started);
    more, beside := deliveries, false;
    if take && endpoint.pb.picoboot && endpoint.pb.mailbox != [] {
      var _ := endpoint.WorkerTakesTask();
      NotFinished(s, endpoint.View(), deliveries, transfers, chunkSize, started);
    } else if endpoint.tr.outstandingPacket && (!endpoint.pb.picoboot || endpoint.pb.working != []) {
      var failed: bool := *;
      if endpoint.pb.picoboot && failed {
        beside := BesideOther(endpoint);
        endpoint.ChunkFailed();
        NotFinished(s, endpoint.View(), deliveries, transfers, chunkSize, started);
      } else {
        var data := ClientChunk(endpoint, endpoint.log.stream);
        endpoint.ChunkDone(data);
        more := Collect(endpoint, s, deliveries, transfers, chunkSize, started);
      }
    }
    EndpointBasics(endpoint.View(), more, transfers, chunkSize, started);
  }

  /** Notes what a transfer has delivered if the event from s finished it. */
  method Collect(endpoint: Endpoint, ghost s: State, deliveries: seq<Delivery>, ghost transfers: seq<seq<Byte>>,
                 ghost chunkSize: nat, started: nat) returns (more: seq<Delivery>)
    requires BetweenEvents(s, deliveries, transfers, chunkSize, started) && (s.Running() || s.Aborted())
    requires var t := endpoint.View(); t.SameStream(s) && if s.Running() then t.Running() || t.Finished() else t.Aborted()
    ensures BetweenEvents(endpoint.View(), more, transfers, chunkSize, started) && endpoint.ep.halted == s.Aborted()
  {
    hide State.Running, State.Finished, State.Idle, State.Aborted, ArrivedWhole;
    ghost var t := endpoint.View();
    StageBasics(s);
    StageBasics(t);
    more := deliveries;
    if endpoint.log.completions > 0 {
      FinishedStream(t);
      FinishedBasics(t);
      more := deliveries + [Delivery(started - 1, endpoint.log.wire, endpoint.log.chunks)];
      OneMoreArrived(deliveries, more[|deliveries|], t.isIn, transfers, chunkSize, started);
    }
  }

  /** Whether the task that fails does so beside a buffer at the hardware. */
  method BesideOther(endpoint: Endpoint) returns (other: bool)
    requires endpoint.View().Running() && endpoint.tr.outstandingPacket && 128 <= endpoint.tr.chunkSize
    ensures |endpoint.hw.available| == 2 && other == (endpoint.hw.available[0] || endpoint.hw.available[1])
    ensures other ==> endpoint.ep.doubleBuffered
  {
    hide State.Running, State.Core;
    OtherAtHardwareExact(endpoint.View());
    RunningBasics(endpoint.View());
    RunningHeld(endpoint.View());
    other := endpoint.ep.doubleBuffered && !endpoint.tr.packetQueued
      && if endpoint.ep.isIn then endpoint.tr.offset > 0 else endpoint.tr.offset + 64 < endpoint.tr.transferLength;
  }

  lemma RunningHeld(s: State)
    requires s.Running()
    ensures |s.available| == 2 && s.HeldCount() == s.Held() && (CanMove(s.ep, s.hw) <==> s.Held() > 0)
  {
    hide State.Core, State.Client, State.Settled, CanMove;
    HeldIsCounted(s);
    HardwareReports(s);
  }

  lemma NothingArrived(s: State, transfers: seq<seq<Byte>>, chunkSize: nat)
    requires s.Idle()
    ensures BetweenEvents(s, [], transfers, chunkSize, 0)
  {
  }

  lemma NotFinished(s: State, t: State, deliveries: seq<Delivery>, transfers: seq<seq<Byte>>, chunkSize: nat, started: nat)
    requires BetweenEvents(s, deliveries, transfers, chunkSize, started) && t.isIn == s.isIn
    requires t.Idle() || t.Aborted() || (s.Running() && t.Running() && t.stream == s.stream && t.chunkSize == s.chunkSize)
    ensures BetweenEvents(t, deliveries, transfers, chunkSize, started)
  {
    StageBasics(s);
    StageBasics(t);
    hide State.Running, State.Idle, State.Aborted, State.Finished, ZeroTails, Flatten;
  }

  lemma NextStarted(s: State, t: State, deliveries: seq<Delivery>, transfers: seq<seq<Byte>>, chunkSize: nat, started: nat)
    requires 0 < started <= |transfers| && BetweenEvents(s, deliveries, transfers, chunkSize, started - 1) && s.Idle()
    requires t.Running() && t.stream == transfers[started - 1] && t.chunkSize == chunkSize && t.isIn == s.isIn
    ensures BetweenEvents(t, deliveries, transfers, chunkSize, started)
  {
    StageBasics(s);
    hide State.Running, State.Idle, State.Aborted, State.Finished, ArrivedWhole;
  }

  lemma OneMoreArrived(deliveries: seq<Delivery>, d: Delivery, isIn: bool, transfers: seq<seq<Byte>>, chunkSize: nat, started: nat)
    requires 0 < started <= |transfers| && ArrivedWhole(deliveries, isIn, transfers, chunkSize, started - 1)
    requires d.index == started - 1 && d.wire == transfers[d.index] && Flatten(d.chunks) == d.wire
    requires !isIn ==> ZeroTails(d.chunks, chunkSize)
    ensures ArrivedWhole(deliveries + [d], isIn, transfers, chunkSize, started)
  {
    hide Flatten, ZeroTails;
  }

  /** What tells the stages of an endpoint apart. */
  lemma StageBasics(s: State)
    requires s.Running() || s.Idle() || s.Aborted() || s.Finished()
    ensures |s.available| == 2 && (s.Finished() ==> s.Idle() && s.completions == 1)
    ensures s.running == s.Running() && (s.halted <==> s.Aborted()) && (!s.running && !s.halted <==> s.Idle())
    ensures s.halted ==> !s.running
    ensures s.Running() || s.Aborted() ==> s.completions == 0
    ensures CanMove(s.ep, s.hw) ==> s.Running() || s.Aborted()
    ensures s.Running() ==> s.offset <= |s.stream|
    ensures s.Aborted() && s.HeldCount() == 0 ==> LateToCome(s) == 0
  {
    if s.Running() { CoreBasics(s, QUIET); hide State.Core; } else { hide State.Core; }
  }

  /** Completions that may still come after the transfer was given up. */
  ghost function LateToCome(s: State): nat {
    if s.halted && |s.available| == 2 && (s.available[0] || s.available[1]) then 1 else 0
  }

  lemma EndpointBasics(s: State, deliveries: seq<Delivery>, transfers: seq<seq<Byte>>, chunkSize: nat, started: nat)
    requires BetweenEvents(s, deliveries, transfers, chunkSize, started)
    ensures |s.available| == 2 && started <= |transfers|
    ensures s.running == s.Running() && (s.halted <==> s.Aborted()) && (!s.running && !s.halted <==> s.Idle())
    ensures s.halted ==> !s.running
    ensures CanMove(s.ep, s.hw) ==> s.Running() || s.Aborted()
    ensures s.Running() ==> s.offset <= |s.stream| && s.chunkSize == chunkSize
    ensures s.Aborted() && s.HeldCount() == 0 ==> LateToCome(s) == 0
    ensures ArrivedWhole(deliveries, s.isIn, transfers, chunkSize, |transfers|)
  {
    StageBasics(s);
    hide State.Running, State.Idle, State.Aborted, State.Finished, ZeroTails, Flatten;
  }

  lemma IdlePid(s: State)
    requires s.Idle()
    ensures s.nextPid == s.acked % 2
  {
  }
}
