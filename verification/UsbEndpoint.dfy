/** One USB device endpoint: the mutually recursive packet engine of usb_device.c under the stream client of
    usb_stream_helper.c. Each method is specified by the steps and invariants of EngineState on View(). */
module UsbEndpoint {
  import opened Bits
  import opened StreamSpec
  import opened EngineSpec
  import opened EngineState

  class Endpoint {
    var ep: UsbEp
    var tr: UsbTransfer
    var pb: TaskQueue
    var hw: Hardware
    var log: Log
    ghost var hist: History

    ghost function View(): State
      reads this
    {
      State(ep, tr, pb, hw, log, hist)
    }

    // ---- usb_device.c ------------------------------------------------------------------------------

    /** _usb_give_buffer: hands the buffer current_give_buffer to the hardware. */
    method GiveBuffer(ghost k: nat)
      requires View().Core(Phase(k, 0, 0, if ep.isIn then 1 else 0, 0)) && !tr.outstandingPacket
      requires ep.ownedBufferCount > 0 && tr.toSubmit > 0 && (ep.isIn || !tr.packetQueued)
      requires ep.isIn ==> 64 * View().Given() < |log.stream|
      requires ep.isIn ==> ep.buffer.valid && hw.slotData[ep.currentGiveBuffer] == Packet(log.stream, View().Given())
      modifies this`ep, this`tr, this`hw
      ensures old(ep.currentGiveBuffer) < 2 && View() == GiveStep(old(View()))
    {
      hide State.Core, State.Client, State.Tasks, State.ServedToOffset, State.Ready, ValidTransfer;
      GiveKeeps(View(), k);
      CoreBasics(View(), Phase(k, 0, 0, if ep.isIn then 1 else 0, 0));
      assert !hw.available[ep.currentGiveBuffer];
      var select := ep.firstBufferAfterReset;
      if ep.firstBufferAfterReset {
        assert ep.currentGiveBuffer == 0;
        ep := ep.(firstBufferAfterReset := false);
      }
      var pid := ep.nextPid;
      ep := ep.(nextPid := 1 - ep.nextPid);
      WriteControl(ep.currentGiveBuffer, select, ep.isIn, pid == 1);
      ep := ep.(buffer := ep.buffer.(valid := false));
      ep := ep.(ownedBufferCount := ep.ownedBufferCount - 1);
      tr := tr.(toSubmit := tr.toSubmit - 1);
      if ep.doubleBuffered {
        ep := ep.(currentGiveBuffer := 1 - ep.currentGiveBuffer);
      }
    }

    /** The buffer control register of a buffer is written: AVAIL with the given SEL, FULL and DATA1 bits. SEL makes the
        hardware look at buffer 0 next. */
    method WriteControl(which: nat, select: bool, full: bool, data1: bool)
      requires which < |hw.available| == |hw.full| == |hw.data1|
      modifies this`hw
      ensures hw == old(hw).(available := old(hw.available)[which := true], full := old(hw.full)[which := full],
                             data1 := old(hw.data1)[which := data1], selector := if select then 0 else old(hw.selector))
    {
      hw := hw.(available := hw.available[which := true], full := hw.full[which := full], data1 := hw.data1[which := data1],
                selector := if select then 0 else hw.selector);
    }

    /** _usb_give_as_many_buffers_as_possible */
    method GiveAsManyBuffersAsPossible(ghost k: nat)
      requires k <= 1 && View().Core(Phase(k, 0, 0, 0, 0)) && View().Client() && View().Tasks(0)
      requires !tr.outstandingPacket && !tr.packetQueued
      requires ep.isIn ==> ep.ownedBufferCount < 2 || tr.offset == 0
      modifies this
      ensures View().Between(k) && !tr.packetQueued && View().SameTransfer(old(View())) && hist.packetsDone >= old(hist.packetsDone)
      ensures ep.ownedBufferCount <= old(ep.ownedBufferCount)
      ensures if ep.isIn then tr.outstandingPacket ==> ep.ownedBufferCount == old(ep.ownedBufferCount) && old(tr.offset % tr.chunkSize) == 0
              else !tr.outstandingPacket
      decreases 0, ep.ownedBufferCount, if ep.isIn then 6 else 0
    {
      hide State.Core, State.Client, State.Tasks, State.ServedToOffset, State.Ready, ValidTransfer;
      ghost var s0 := View();
      CoreBasics(s0, Phase(k, 0, 0, 0, 0));
      while ep.running && tr.toSubmit > 0 && ep.ownedBufferCount > 0 && !ep.halted
        invariant View().Core(Phase(k, 0, 0, 0, 0)) && View().Client() && View().Tasks(0)
        invariant !tr.outstandingPacket && !tr.packetQueued && View().SameTransfer(s0) && hist.packetsDone >= s0.packetsDone
        invariant ep.running && !ep.halted && ep.ownedBufferCount <= s0.ownedBufferCount
        invariant ep.isIn ==> View() == s0 || ep.ownedBufferCount == 0 || tr.toSubmit == 0
        decreases ep.ownedBufferCount
      {
        if ep.isIn {
          var old' := ep.ownedBufferCount;
          CallOnPacket(k);
          if old' == ep.ownedBufferCount { break; }
        } else {
          ghost var s := View();
          CoreBasics(s, Phase(k, 0, 0, 0, 0));
          GiveKeeps(s, k);
          SameClient(s, GiveStep(s));
          GiveBuffer(k);
        }
        if !tr.outstandingPacket { CoreBasics(View(), Phase(k, 0, 0, 0, 0)); }
      }
    }

    /** _usb_call_on_packet */
    method CallOnPacket(ghost k: nat)
      requires k <= 1 && View().Core(Phase(k, if ep.isIn then 0 else 1, 0, 0, 0)) && View().Client() && View().Tasks(0)
      requires !tr.outstandingPacket && !tr.packetQueued
      requires if ep.isIn then ep.ownedBufferCount > 0 && tr.toSubmit > 0 && (ep.ownedBufferCount < 2 || tr.offset == 0)
               else k == 1 && View().OutMayStart()
      modifies this
      ensures View().Between(k) && !tr.packetQueued && View().SameTransfer(old(View())) && hist.packetsDone >= old(hist.packetsDone)
      ensures ep.ownedBufferCount <= old(ep.ownedBufferCount)
      ensures ep.isIn && tr.outstandingPacket ==> ep.ownedBufferCount == old(ep.ownedBufferCount) && old(tr.offset % tr.chunkSize) == 0
      decreases 0, ep.ownedBufferCount, 5
    {
      hide State.Core, State.Client, State.Tasks, State.ServedToOffset, State.Ready, ValidTransfer;
      CallKeeps(View(), k);
      CallKeepsClient(View(), k);
      ghost var s0 := View();
      tr := tr.(outstandingPacket := true);
      log := log.(onPacketCalls := log.onPacketCalls + 1);
      assert View() == CallStep(s0);
      StreamPacketHandler(k);
    }

    /** _usb_check_for_transfer_completion: a halted transfer is given up; otherwise the transfer is complete when
        all its packets are handled and none is outstanding, and on_complete is called. */
    method CheckForTransferCompletion()
      requires ep.running && !tr.completed
      requires !ep.halted && tr.toHandle == 0 && !tr.outstandingPacket ==>
        var s := WithoutBuffer(View()); s.Core(QUIET) && s.Client() && s.Tasks(0) && !tr.packetQueued
      modifies this`tr, this`ep, this`log
      ensures old(ep.halted && !tr.outstandingPacket) ==> View() == GiveUpStep(old(View()))
      ensures !old(ep.halted) && old(tr.toHandle) == 0 && !tr.outstandingPacket ==>
        View() == CompleteStep(old(View())) && View().Finished()
      ensures !old(ep.halted) && (old(tr.toHandle) > 0 || tr.outstandingPacket) ==> View() == old(View())
    {
      hide State.Core, State.Client, State.Tasks, State.ServedToOffset, State.Ready, ValidTransfer;
      if ep.halted || !(tr.toHandle > 0 || tr.outstandingPacket) {
        if !ep.halted { FinishesWithoutBuffer(View()); }
        tr := tr.(completed := true);
        ep := ep.(running := false);
        if ep.halted {
          tr := tr.(toSubmit := 0);
          tr := tr.(toHandle := 0);
          return;
        }
        log := log.(completions := log.completions + 1);
      }
    }

    /** usb_packet_done: the client has dealt with the outstanding packet. */
    method PacketDone(ghost k: nat)
      requires k <= 1 && tr.outstandingPacket && ep.running && !tr.completed
      requires !ep.halted ==> View().Core(Phase(k, 0, 1, 0, 0)) && View().Client() && View().Tasks(0)
      requires !ep.halted && ep.isIn ==> 64 * hist.packetsDone < |log.stream| && GivablePacket(View()) && tr.toSubmit > 0
      requires !ep.halted && tr.packetQueued ==> k == 0 && tr.toHandle < View().Total()
      requires !ep.halted && tr.packetQueued && !ep.isIn ==> tr.chunkSize > 0 && tr.offset % tr.chunkSize == 0
      modifies this
      ensures old(ep.halted) ==> View() == GiveUpStep(old(View()))
      ensures !old(ep.halted) ==> AfterPacket(old(View()), View(), k) && hist.packetsDone > old(hist.packetsDone)
      ensures !old(ep.halted) && ep.isIn && !old(tr.packetQueued) && tr.outstandingPacket ==>
        old(ep.ownedBufferCount) == 2 && old(tr.offset % tr.chunkSize) == 0
      decreases if tr.packetQueued then 1 else 0, ep.ownedBufferCount, 2
    {
      hide State.Core, State.Client, State.Tasks, State.ServedToOffset, State.Ready, State.Finished, ValidTransfer, AfterPacket;
      ghost var s0 := View();
      tr := tr.(outstandingPacket := false);
      if !ep.halted {
        CoreBasics(s0, Phase(k, 0, 1, 0, 0));
        DoneKeeps(s0, k);
        DoneKeepsTasks(s0);
        hist := hist.(packetsDone := hist.packetsDone + 1);
        assert WithoutBuffer(View()) == DoneStep(s0);
        StillToHandle(DoneStep(s0), Phase(k, 0, 0, if ep.isIn then 1 else 0, 0));
      }
      ghost var s1 := View();
      CheckForTransferCompletion();
      if !tr.completed {
        ContinueAfterPacket(k);
        AfterDone(s0, s1, View(), k);
      } else if !ep.halted {
        AfterLast(s0, s1, View(), k);
      }
    }

    /** The rest of usb_packet_done while the transfer goes on: give an IN packet, then take up a queued packet or top
        up the buffers. */
    method ContinueAfterPacket(ghost k: nat)
      requires k <= 1 && !tr.outstandingPacket && !ep.halted && ep.running && !tr.completed && tr.toHandle > 0
      requires var s := WithoutBuffer(View());
        s.Core(Phase(k, 0, 0, if ep.isIn then 1 else 0, 0)) && s.Client() && s.Tasks(0)
      requires ep.isIn ==> 64 * View().Given() < |log.stream| && tr.toSubmit > 0 && ep.buffer.valid && ep.buffer.len <= 64
      requires ep.isIn ==> |hw.slotData| == 2 && ep.currentGiveBuffer < 2
      requires ep.isIn ==> hw.slotData[ep.currentGiveBuffer] == Packet(log.stream, View().Given())
      requires tr.packetQueued ==> k == 0 && tr.toHandle < View().Total()
      requires tr.packetQueued && !ep.isIn ==> tr.chunkSize > 0 && tr.offset % tr.chunkSize == 0
      modifies this
      ensures AfterPacket(old(View()), View(), k) && hist.packetsDone >= old(hist.packetsDone)
      ensures ep.isIn && !old(tr.packetQueued) && tr.outstandingPacket ==>
        old(ep.ownedBufferCount) == 2 && old(tr.offset % tr.chunkSize) == 0
      decreases if tr.packetQueued then 1 else 0, ep.ownedBufferCount, 1
    {
      hide State.Core, State.Client, State.Tasks, State.ServedToOffset, State.Ready, ValidTransfer;
      LetBufferGo(k);
      if tr.packetQueued {
        TakeUpQueuedPacket();
      } else {
        CoreBasics(View(), Phase(k, 0, 0, 0, 0));
        GiveAsManyBuffersAsPossible(k);
        CoreBasics(View(), Phase(k, 0, 0, 0, 0));
        StillToHandle(View(), Phase(k, 0, 0, 0, 0));
      }
    }

    /** An IN packet is given, and the packet buffer is free for the next packet. */
    method LetBufferGo(ghost k: nat)
      requires k <= 1 && !tr.outstandingPacket && ep.running && tr.toHandle > 0
      requires var s := WithoutBuffer(View());
        s.Core(Phase(k, 0, 0, if ep.isIn then 1 else 0, 0)) && s.Client() && s.Tasks(0)
      requires ep.isIn ==> 64 * View().Given() < |log.stream| && tr.toSubmit > 0 && ep.buffer.valid && ep.buffer.len <= 64
      requires ep.isIn ==> |hw.slotData| == 2 && ep.currentGiveBuffer < 2
      requires ep.isIn ==> hw.slotData[ep.currentGiveBuffer] == Packet(log.stream, View().Given())
      modifies this`ep, this`tr, this`hw
      ensures View().Core(Phase(k, 0, 0, 0, 0)) && View().Client() && View().Tasks(0) && View().SameTransfer(old(View()))
      ensures tr == old(tr).(toSubmit := tr.toSubmit)
      ensures ep.ownedBufferCount == old(ep.ownedBufferCount) - (if ep.isIn then 1 else 0)
      ensures old(ep.ownedBufferCount) <= 2 && tr.chunkSize > 0
    {
      hide State.Core, State.Client, State.Tasks, State.ServedToOffset, State.Ready, ValidTransfer;
      CoreBasics(WithoutBuffer(View()), Phase(k, 0, 0, if ep.isIn then 1 else 0, 0));
      if ep.isIn {
        assert ep.buffer.valid && ep.buffer.len <= 64;
        ghost var s := View();
        CoreBasics(s, Phase(k, 0, 0, 1, 0));
        GiveKeeps(s, k);
        SameClient(s, GiveStep(s));
        GiveBuffer(k);
      }
      ep := ep.(buffer := ep.buffer.(valid := false));
    }

    /** The deferred packet is handled as if it had just been completed. */
    method TakeUpQueuedPacket()
      requires View().Core(QUIET) && View().Client() && View().Tasks(0)
      requires tr.packetQueued && !tr.outstandingPacket && tr.toHandle < View().Total()
      requires if ep.isIn then ep.ownedBufferCount <= 1 else tr.chunkSize > 0 && tr.offset % tr.chunkSize == 0
      modifies this
      ensures View().SameTransfer(old(View())) && hist.packetsDone >= old(hist.packetsDone) && !tr.packetQueued
      ensures if tr.completed then View().Finished() else View().Running()
      decreases 1, ep.ownedBufferCount, 0
    {
      hide State.Core, State.Client, State.Tasks, State.ServedToOffset, State.Ready, ValidTransfer;
      ghost var s := View();
      CoreBasics(s, QUIET);
      assert ep.doubleBuffered;
      UnqueueKeeps(s);
      tr := tr.(packetQueued := false);
      ep := ep.(ownedBufferCount := ep.ownedBufferCount - 1);
      assert View() == UnqueueStep(s);
      SameClient(s, View());
      var asserted := HandleTransfer(1 - ep.currentTakeBuffer);
      assert asserted;
      if View().Running() { CoreBasics(View(), QUIET); }
    }

    /** _usb_handle_transfer: the hardware has completed the packet in buffer `which`. `asserted` is the value of the
        debug assertion that the endpoint is not halted. */
    method HandleTransfer(which: nat) returns (asserted: bool)
      requires ep.running ==> !ep.halted && View().Core(Phase(1, 1, 0, 0, 1)) && View().Client()
      requires ep.running ==> View().Tasks(View().Outstanding()) && !tr.packetQueued
      requires ep.running ==> which == View().Slot(View().Total() - tr.toHandle)
      requires ep.running && tr.outstandingPacket ==> View().Settled() && ep.doubleBuffered
      requires ep.running && !tr.outstandingPacket ==>
        if ep.isIn then ep.ownedBufferCount == 0 || tr.toSubmit == 0 else TakeStep(View(), which).OutMayStart()
      modifies this
      ensures asserted == !old(ep.halted)
      ensures !old(ep.running) ==> View() == UnexpectedStep(old(View()))
      ensures old(ep.running) ==>
        && (View().Running() || View().Finished())
        && View().SameTransfer(old(View())) && hist.packetsDone >= old(hist.packetsDone)
        && (if old(tr.outstandingPacket) then View() == QueuePacketStep(old(View())) else !tr.packetQueued)
      decreases if tr.packetQueued then 1 else 0, ep.ownedBufferCount + 1, 8
    {
      hide State.Core, State.Client, State.Tasks, State.ServedToOffset, State.Ready, ValidTransfer;
      ghost var s0 := View();
      asserted := !ep.halted;
      ep := ep.(ownedBufferCount := ep.ownedBufferCount + 1);
      if !ep.running {
        ep := ep.(halted := true);
        return;
      }
      CoreBasics(s0, Phase(1, 1, 0, 0, 1));
      if tr.outstandingPacket {
        QueueLeavesOther(s0);
        assert ep.doubleBuffered && which != ep.currentTakeBuffer;
        QueuePacketKeepsRest(s0);
        tr := tr.(packetQueued := true);
        assert View() == QueuePacketStep(s0);
      } else {
        TakeKeeps(s0, which);
        ep := ep.(currentTakeBuffer := which);
        assert View() == TakeStep(s0, which);
        SameClient(s0, View());
        HandleTaken();
      }
    }

    /** The rest of _usb_handle_transfer: call on_packet unless an IN transfer has nothing left to submit, then count
        the packet. */
    method HandleTaken()
      requires View().Core(Phase(1, 1, 0, 0, 0)) && View().Client() && View().Tasks(0)
      requires !tr.outstandingPacket && !tr.packetQueued
      requires if ep.isIn then ep.ownedBufferCount <= 1 || tr.toSubmit == 0 else View().OutMayStart()
      modifies this
      ensures View().Running() || View().Finished()
      ensures View().SameTransfer(old(View())) && hist.packetsDone >= old(hist.packetsDone) && !tr.packetQueued
      decreases 0, ep.ownedBufferCount, 7
    {
      hide State.Core, State.Client, State.Tasks, State.ServedToOffset, State.Ready, ValidTransfer;
      CoreBasics(View(), Phase(1, 1, 0, 0, 0));
      ghost var w := 1;
      if !ep.isIn || tr.toSubmit > 0 {
        if ep.isIn { WaitingIsForOut(View()); }
        CallOnPacket(1);
        w := 0;
      }
      CoreBasics(View(), Phase(1, w, 0, 0, 0));
      if !tr.completed { CountHandled(w); }
    }

    /** One packet less remains to be handled, and the transfer may be complete. */
    method CountHandled(ghost w: nat)
      requires View().Core(Phase(1, w, 0, 0, 0)) && (w == 0 || ep.isIn) && View().Client() && View().Settled()
      requires View().Tasks(View().Outstanding()) && !tr.packetQueued
      modifies this`tr, this`ep, this`log
      ensures View().Running() || View().Finished()
      ensures View().SameTransfer(old(View())) && !tr.packetQueued
    {
      hide State.Core, State.Client, State.Tasks, State.ServedToOffset, State.Ready, ValidTransfer;
      ghost var s := View();
      CoreBasics(s, Phase(1, w, 0, 0, 0));
      HandledKeeps(s, w);
      tr := tr.(toHandle := tr.toHandle - 1);
      assert View() == HandledStep(s);
      SameClient(s, View());
      WithoutBufferKeeps(View());
      CheckForTransferCompletion();
    }

    // ---- usb_stream_helper.c ------------------------------------------------------------------------

    /** on_chunk: an OUT client is handed the chunk; an IN client either fills the chunk buffer at once or later.
        PICOBOOT queues a task for every chunk. The caller's decision to work asynchronously is free. */
    method OnChunk(len: nat) returns (isAsync: bool)
      requires len > 0 && tr.offset <= |log.stream| && |tr.chunkBuffer| == tr.chunkSize
      requires pb.picoboot ==> pb.mailbox == []
      modifies this
      ensures pb.picoboot ==> isAsync
      ensures var handed := if ep.isIn then old(View()) else HandStep(old(View()), len);
        var queued := if pb.picoboot then QueueStep(handed, len) else handed;
        View() == if ep.isIn && !isAsync then FillStep(old(View())) else queued
    {
      if !ep.isIn {
        log := log.(chunks := log.chunks + [Chunk(len, tr.chunkBuffer)]);
      }
      if pb.picoboot {
        var task := Task(pb.taskAddress, len);
        pb := pb.(mailbox := [task]);
        log := log.(tasks := log.tasks + [task]);
        isAsync := true;
      } else if * {
        isAsync := true;
      } else {
        isAsync := false;
        if ep.isIn { FillChunk(log.stream[tr.offset..tr.offset + Min(tr.chunkSize, |log.stream| - tr.offset)]); }
      }
    }

    /** The IN client copies the bytes of its next chunk into the chunk buffer. */
    method FillChunk(data: seq<Byte>)
      requires tr.offset <= |log.stream| && |tr.chunkBuffer| == tr.chunkSize && data == ChunkData(View())
      modifies this`tr, this`log
      ensures View() == FillStep(old(View()))
    {
      tr := tr.(chunkBuffer := data + tr.chunkBuffer[|data|..]);
      log := log.(chunks := log.chunks + [Chunk(|data|, tr.chunkBuffer)]);
    }

    /** _usb_stream_packet_packet_handler: collects OUT packets into chunks, asks for IN chunks at their start, and
        completes the packet unless the client defers it. */
    method StreamPacketHandler(ghost k: nat)
      requires k <= 1 && View().Core(Phase(k, 0, 0, 0, 0)) && View().ServedToOffset() && View().Tasks(0)
      requires tr.outstandingPacket && !tr.packetQueued
      requires if ep.isIn then tr.toSubmit > 0 && (ep.ownedBufferCount < 2 || tr.offset == 0)
               else k == 1 && View().OutMayStart()
      modifies this
      ensures View().Between(k) && !tr.packetQueued && View().SameTransfer(old(View())) && hist.packetsDone >= old(hist.packetsDone)
      ensures ep.ownedBufferCount <= old(ep.ownedBufferCount)
      ensures ep.isIn && tr.outstandingPacket ==> ep.ownedBufferCount == old(ep.ownedBufferCount) && old(tr.offset % tr.chunkSize) == 0
      decreases 0, ep.ownedBufferCount, 4
    {
      hide State.Core, State.Client, State.Tasks, State.ServedToOffset, State.Ready, ValidTransfer;
      CoreBasics(View(), Phase(k, 0, 0, 0, 0));
      var deferred;
      if ep.isIn {
        deferred := RequestInChunk(k);
      } else {
        deferred := CollectOutPacket(k);
      }
      if !deferred {
        CoreBasics(View(), Phase(k, 0, 0, 0, 0));
        if tr.offset == 0 && ep.isIn && ep.doubleBuffered && |log.stream| > 64 { FirstPacketIsNoChunk(View(), k); }
        StreamPacketHandlerComplete(k);
        if tr.outstandingPacket && ep.isIn { LaterPacket(View(), k); }
      }
    }

    /** An IN packet at the start of a chunk asks the client for the chunk. */
    method RequestInChunk(ghost k: nat) returns (deferred: bool)
      requires k <= 1 && View().Core(Phase(k, 0, 0, 0, 0)) && View().ServedToOffset() && View().Tasks(0)
      requires tr.outstandingPacket && !tr.packetQueued && ep.isIn && tr.toSubmit > 0
      requires ep.ownedBufferCount < 2 || tr.offset == 0
      modifies this
      ensures View().ep == old(View().ep) && View().hist == old(View().hist) && View().SameTransfer(old(View()))
      ensures tr == old(tr).(chunkBuffer := tr.chunkBuffer, completeExpected := true)
      ensures if deferred then View().Between(k) && old(tr.offset % tr.chunkSize) == 0
              else View().Core(Phase(k, 0, 0, 0, 0)) && View().Ready() && View().Tasks(0)
    {
      hide State.Core, State.Client, State.Tasks, State.ServedToOffset, State.Ready, ValidTransfer;
      ghost var s0 := View();
      InPacketRequest(s0, k);
      var chunkLen := 0;
      if ChunkOffset(tr.offset, tr.chunkSize) == 0 {
        chunkLen := if Add(tr.offset, tr.chunkSize) > tr.transferLength then tr.transferLength - tr.offset else tr.chunkSize;
      }
      tr := tr.(completeExpected := true);
      ghost var s := View();
      assert s == ExpectStep(s0);
      ExpectKeeps(s0, Phase(k, 0, 0, 0, 0));
      if chunkLen != 0 {
        if pb.picoboot { MailboxFree(s); }
        deferred := OnChunk(chunkLen);
        if deferred {
          DeferredIn(s, View(), k, chunkLen);
        } else {
          FillKeeps(s, k);
          NoTasks(View());
        }
      } else {
        deferred := false;
      }
    }

    /** An OUT packet is copied into its chunk, and a completed chunk is handed to the client. */
    method CollectOutPacket(ghost k: nat) returns (deferred: bool)
      requires k == 1 && View().Core(Phase(k, 0, 0, 0, 0)) && View().ServedToOffset() && View().Tasks(0)
      requires tr.outstandingPacket && !tr.packetQueued && !ep.isIn && View().OutMayStart()
      modifies this
      ensures View().ep == old(View().ep).(buffer := ep.buffer) && View().hist == old(View().hist)
      ensures View().SameTransfer(old(View())) && tr == old(tr).(chunkBuffer := tr.chunkBuffer, completeExpected := true)
      ensures if deferred then View().Between(k)
              else View().Core(Phase(k, 0, 0, 0, 0)) && View().Ready() && View().Tasks(0)
    {
      hide State.Core, State.Client, State.Tasks, State.ServedToOffset, State.Ready, ValidTransfer, OutChunkLength, Copied;
      ghost var s0 := View();
      CoreBasics(s0, Phase(k, 0, 0, 0, 0));
      ExpectKeeps(s0, Phase(k, 0, 0, 0, 0));
      ghost var s := ExpectStep(s0);
      OutPacketKeeps(s, k);
      var chunkLen := CopyOutPacket();
      tr := tr.(completeExpected := true);
      assert View() == CopyStep(s);
      deferred := chunkLen != 0;
      if deferred { deferred := HandOver(chunkLen, s, k); } else { SameTasks(s, View()); }
    }

    /** The client is handed the chunk that the packet just copied from s completes. */
    method HandOver(chunkLen: nat, ghost s: State, ghost k: nat) returns (deferred: bool)
      requires k == 1 && s.Core(Phase(k, 0, 0, 0, 0)) && s.ServedToOffset() && s.Tasks(0) && s.OutMayStart() && CanCopy(s)
      requires s.outstandingPacket && !s.packetQueued && !s.isIn && s.completeExpected
      requires View() == CopyStep(s) && 0 != chunkLen == OutChunkLength(s.offset, s.transferLength, s.chunkSize)
      modifies this
      ensures ep == old(ep) && tr == old(tr) && View().hist == old(View().hist) && View().SameTransfer(s)
      ensures if deferred then View().Between(k) else View() == OutPacketStep(s) && View().Tasks(0)
    {
      hide State.Core, State.Client, State.Tasks, State.ServedToOffset, State.Ready, ValidTransfer, OutChunkLength, Copied;
      CoreBasics(s, Phase(k, 0, 0, 0, 0));
      if pb.picoboot { MailboxFree(s); }
      deferred := OnChunk(chunkLen);
      if deferred { DeferredOut(s, View(), k, chunkLen); } else { NoTasks(View()); }
    }

    /** The packet's bytes go into the chunk buffer, zeroed first at the start of a chunk; the result is the length of
        the chunk they complete. */
    method CopyOutPacket() returns (chunkLen: nat)
      requires CanCopy(View())
      requires var n := OutChunkLength(tr.offset, tr.transferLength, tr.chunkSize);
        && (n != 0 || AcquireOut(View()).len == 64)
        && (n != 0 ==> AcquireOut(View()).len == (if n % 64 != 0 then n % 64 else 64))
      modifies this`ep, this`tr
      ensures View() == CopyStep(old(View())) && chunkLen == OutChunkLength(tr.offset, tr.transferLength, tr.chunkSize)
    {
      hide OutChunkLength, Copied, ChunkOffset;
      if !ep.buffer.valid {
        assert hw.full[ep.currentTakeBuffer];
        ep := ep.(buffer := HwBuffer(true, ep.currentTakeBuffer, |hw.slotData[ep.currentTakeBuffer]|));
      }
      chunkLen := OutChunkLength(tr.offset, tr.transferLength, tr.chunkSize);
      assert chunkLen != 0 || ep.buffer.len == 64;
      assert chunkLen != 0 ==> ep.buffer.len == (if chunkLen % 64 != 0 then chunkLen % 64 else 64);
      tr := tr.(chunkBuffer := Copied(tr.chunkBuffer, tr.chunkSize, ChunkOffset(tr.offset, tr.chunkSize),
                                      hw.slotData[ep.currentTakeBuffer]));
    }

    /** usb_stream_packet_handler_complete */
    method StreamPacketHandlerComplete(ghost k: nat)
      requires k <= 1 && tr.outstandingPacket && ep.running && !tr.completed
      requires ep.halted ==> CanComplete(View())
      requires !ep.halted ==> View().Core(Phase(k, 0, 0, 0, 0)) && View().Ready() && View().Tasks(0)
      requires !ep.halted && ep.isIn ==> tr.toSubmit > 0
      requires !ep.halted && tr.packetQueued ==> k == 0 && tr.toHandle < View().Total()
      requires !ep.halted && tr.packetQueued && !ep.isIn ==> View().EndsChunk()
      requires tr.completeExpected
      modifies this
      ensures old(ep.halted) ==> View() == GiveUpStep(AdvanceStep(old(View())))
      ensures !old(ep.halted) ==> AfterPacket(old(View()), View(), k) && hist.packetsDone > old(hist.packetsDone)
      ensures !old(ep.halted) && ep.isIn && !old(tr.packetQueued) && tr.outstandingPacket ==>
        old(ep.ownedBufferCount) == 2 && Position(|log.stream|, old(hist.packetsDone) + 1) % tr.chunkSize == 0
      decreases if tr.packetQueued then 1 else 0, ep.ownedBufferCount, 3
    {
      hide State.Core, State.Client, State.Tasks, State.ServedToOffset, State.Ready, ValidTransfer;
      ghost var s0 := View();
      if !ep.halted { AdvanceKeeps(s0, k); }
      AdvancePacket();
      if !ep.halted && tr.packetQueued && !ep.isIn { QueuedStartsChunk(View()); }
      SameTasks(s0, View());
      PacketDone(k);
    }

    /** Before usb_packet_done: an IN packet is filled from its chunk, an OUT packet counts as taken, and the stream
        moves on. */
    method AdvancePacket()
      requires CanComplete(View()) && tr.completeExpected
      modifies this`ep, this`hw, this`tr
      ensures View() == AdvanceStep(old(View()))
    {
      assert tr.completeExpected;
      tr := tr.(completeExpected := false);
      if ep.isIn {
        FillInPacket();
      } else {
        if !ep.buffer.valid {
          assert hw.full[ep.currentTakeBuffer];
          ep := ep.(buffer := HwBuffer(true, ep.currentTakeBuffer, |hw.slotData[ep.currentTakeBuffer]|));
        }
        assert ep.buffer.len > 0;
      }
      tr := tr.(offset := tr.offset + ep.buffer.len);
    }

    /** Up to 64 bytes of the chunk go into the packet. */
    method FillInPacket()
      requires CanComplete(View()) && ep.isIn
      modifies this`ep, this`hw
      ensures View().(tr := tr.(offset := tr.offset + ep.buffer.len, completeExpected := false)) == AdvanceStep(old(View()))
    {
      CompletionRegisters(View());
      if !ep.buffer.valid {
        assert !hw.full[ep.currentGiveBuffer];
        ep := ep.(buffer := HwBuffer(true, ep.currentGiveBuffer, 0));
      }
      var chunkOffset := ChunkOffset(tr.offset, tr.chunkSize);
      var dataLen := if Add(tr.offset, 64) > tr.transferLength then tr.transferLength - tr.offset else 64;
      ep := ep.(buffer := ep.buffer.(len := dataLen));
      hw := hw.(slotData := hw.slotData[ep.currentGiveBuffer := tr.chunkBuffer[chunkOffset..chunkOffset + dataLen]]);
    }

    // ---- events ---------------------------------------------------------------------------------------

    constructor (isIn: bool, doubleBuffered: bool, picoboot: bool)
      ensures View().Idle() && ep.nextPid == 0 && hist.acked == 0
      ensures ep.isIn == isIn && ep.doubleBuffered == doubleBuffered && pb.picoboot == picoboot
    {
      ep := UsbEp(isIn, doubleBuffered, 0, BufferCount(doubleBuffered), 0, 0, false, true, HwBuffer(false, 0, 0), false);
      tr := UsbTransfer(0, 0, false, false, false, 0, 0, 0, [], false);
      pb := TaskQueue(picoboot, 0, [], []);
      var second: bool := *;
      hw := Hardware([false, false], [[], []], [false, false], [false, false], if second then 1 else 0, false);
      log := Log([], [], [], [], 0, 0);
      hist := History(0, 0, 0, 0, 0);
    }

    /** usb_stream_setup_transfer and usb_start_transfer: `stream` are the bytes the sender (the host for OUT, the
        client for IN) has to send. */
    method StartTransfer(stream: seq<Byte>, chunkSize: nat, address: int)
      requires View().Idle() && ValidStream(ep.isIn, ep.doubleBuffered, |stream|, chunkSize)
      modifies this
      ensures View().Running() && log.stream == stream && tr.chunkSize == chunkSize && hist.firstAddress == address
      ensures pb.taskAddress == address && pb.working == []
      ensures ep.isIn == old(ep.isIn) && ep.doubleBuffered == old(ep.doubleBuffered) && pb.picoboot == old(pb.picoboot)
      ensures hist.hwDone == 0 && hist.acked == old(hist.acked)
    {
      hide State.Core, State.Client, State.Tasks, ValidTransfer, ValidStream;
      StartKeeps(View(), stream, chunkSize, address);
      ghost var s0 := View();
      var n := PacketCount(|stream|);
      tr := UsbTransfer(n, n, false, false, false, 0, |stream|, chunkSize, seq(chunkSize, i => 0), false);
      pb := TaskQueue(pb.picoboot, address, [], []);
      log := Log(stream, [], [], [], 0, 0);
      hist := History(ep.currentGiveBuffer, 0, 0, hist.acked, address);
      ep := ep.(running := true);
      assert View() == StartStep(s0, stream, chunkSize, address);
      GiveAsManyBuffersAsPossible(0);
      CoreBasics(View(), QUIET);
      StillToHandle(View(), QUIET);
      StartedBusy(View());
    }

    /** The hardware moves the packet of the buffer it has selected and interrupts, in a running transfer or after the
        transfer was given up. `asserted` is the value of the debug assertion in _usb_handle_transfer. */
    method HardwareCompletes() returns (asserted: bool)
      requires View().Running() || View().Aborted()
      requires CanMove(ep, hw)
      modifies this
      ensures asserted <==> old(View().Running())
      ensures View().SameStream(old(View())) && hist.packetsDone >= old(hist.packetsDone)
      ensures hist.hwDone == old(hist.hwDone) + 1 && hist.acked == old(hist.acked) + 1
      ensures pb.taskAddress == old(pb.taskAddress) && pb.working == old(pb.working)
      ensures |old(hw.slotData)| == 2
      ensures old(View().Aborted()) ==>
        View() == UnexpectedStep(LateStep(old(View()))) && View().Aborted() && View().HeldCount() == 0
      ensures old(View().Running()) ==>
        && (View().Running() || View().Finished()) && old(hist.hwDone) < old(View().Total())
        && (old(tr.outstandingPacket) ==> View() == QueuePacketStep(HardwareStep(old(View()))))
    {
      hide State.Core, State.Client, State.Tasks, ValidTransfer, ValidStream;
      ghost var s0 := View();
      if s0.Running() {
        CoreBasics(s0, QUIET);
        HardwareReports(s0);
        HardwareKeeps(s0);
        HardwareKeepsClient(s0);
      } else {
        LateKeeps(s0);
      }
      var which := Selected(ep.doubleBuffered, hw.selector);
      CompleteOnBus(which);
      asserted := HandleTransfer(which);
    }

    /** The packet in the selected buffer crosses the bus: the hardware keeps the buffer no longer, an IN buffer is empty
        and an OUT buffer full, the other buffer is selected, and the host goes on with the other data PID. */
    method CompleteOnBus(which: nat)
      requires |hw.slotData| == 2 && CanMove(ep, hw) && which == Selected(ep.doubleBuffered, hw.selector)
      requires !ep.isIn ==> 64 * hist.hwDone < |log.stream| && |log.wire| == 64 * hist.hwDone
      modifies this`hw, this`log, this`hist
      ensures View() == LateStep(old(View()))
    {
      hw := hw.(available := hw.available[which := false], full := hw.full[which := !ep.isIn],
                selector := 1 - hw.selector, hostData1 := !hw.hostData1);
      if ep.isIn {
        log := log.(wire := log.wire + hw.slotData[which]);
      } else {
        var data := NextPacketOnBus();
        hw := hw.(slotData := hw.slotData[which := data]);
        log := log.(wire := log.wire + data);
      }
      hist := hist.(hwDone := hist.hwDone + 1, acked := hist.acked + 1);
    }

    /** The host sends its bytes in full packets except possibly the last. */
    method NextPacketOnBus() returns (data: seq<Byte>)
      requires 64 * hist.hwDone < |log.stream| && |log.wire| == 64 * hist.hwDone
      ensures data == Packet(log.stream, hist.hwDone)
    {
      data := log.stream[|log.wire|..Min(|log.wire| + 64, |log.stream|)];
    }

    /** usb_stream_chunk_done, called by the worker when an asynchronous chunk is finished; with PICOBOOT by
        _atc_chunk_task_done after a task that succeeded. For IN `data` is what the client has put in the chunk. */
    method ChunkDone(data: seq<Byte>)
      requires View().Running() && tr.outstandingPacket && (pb.picoboot ==> pb.working != [])
      requires ep.isIn ==> tr.offset <= |log.stream| && data == ChunkData(View())
      modifies this
      ensures View().Running() || View().Finished()
      ensures View().SameStream(old(View())) && hist.packetsDone > old(hist.packetsDone)
      ensures hist.hwDone == old(hist.hwDone) && hist.acked == old(hist.acked)
      ensures pb.picoboot ==> pb.taskAddress == old(pb.taskAddress) + PendingLength(old(View())) && pb.working == []
    {
      hide State.Core, State.Client, State.Tasks, State.Ready, ValidTransfer;
      ghost var s0 := View();
      CoreBasics(s0, QUIET);
      if ep.isIn {
        DeferredInReady(s0);
        FillChunk(data);
      } else {
        DeferredOutReady(s0);
      }
      if pb.picoboot {
        TaskInStream(s0);
        pb := pb.(taskAddress := pb.taskAddress + pb.working[0].length, working := []);
        FinishTask(s0, View());
        OtherTasksKeepCore(if ep.isIn then FillStep(s0) else s0, pb);
      } else {
        NoTasks(View());
      }
      StreamPacketHandlerComplete(0);
      if !tr.completed { CoreBasics(View(), QUIET); }
    }

    /** async_task_worker takes the task out of the mailbox. */
    method WorkerTakesTask() returns (task: Task)
      requires View().Running() && pb.picoboot && pb.mailbox != []
      modifies this`pb
      ensures View().Running() && pb.mailbox == [] && task == old(pb.mailbox[0])
      ensures pb == old(pb).(mailbox := [], working := [task])
    {
      hide State.Core, State.Client, State.Settled, State.Tasks;
      MailboxKeeps(View());
      task := pb.mailbox[0];
      assert [task] == pb.mailbox;
      pb := pb.(mailbox := [], working := [task]);
    }

    /** _atc_chunk_task_done after a task that failed: the endpoint is halted and the transfer given up. */
    method ChunkFailed()
      requires View().Running() && tr.outstandingPacket && pb.picoboot && pb.working != []
      modifies this
      ensures View().Aborted() && log.tasks == old(log.tasks) && pb.mailbox == []
      ensures View().SameStream(old(View())) && hist == old(hist) && log == old(log)
      ensures hw == old(hw).(slotData := hw.slotData)
    {
      hide State.Core, State.Client, State.Tasks, State.Ready, ValidTransfer;
      ghost var s0 := View();
      CoreBasics(s0, QUIET);
      TaskInStream(s0);
      ep := ep.(halted := true);
      pb := pb.(taskAddress := pb.taskAddress + pb.working[0].length, working := []);
      HaltAborts(s0, pb);
      StreamPacketHandlerComplete(0);
    }

    /** _usb_reset_buffers. The hardware may select either buffer afterwards. */
    method ResetBuffers()
      requires |hw.available| == 2 && ep.nextPid < 2
      modifies this`ep, this`hw
      ensures hw.selector < 2 && ep == ResetEp(old(ep), old(hw.available[0] || hw.available[1])) && hw == ResetHw(old(hw), hw.selector)
    {
      if hw.available[0] || hw.available[1] {
        if !ep.doubleBuffered || ep.ownedBufferCount == 1 {
          ep := ep.(nextPid := 1 - ep.nextPid);
        }
      }
      var second: bool := *;
      hw := hw.(available := [false, false], full := [false, false], data1 := [false, false],
                selector := if second then 1 else 0);
      ep := ep.(ownedBufferCount := BufferCount(ep.doubleBuffered), currentGiveBuffer := 0, currentTakeBuffer := 0,
                firstBufferAfterReset := true);
    }

    /** usb_soft_reset_endpoint and usb_hard_reset_endpoint, on an endpoint without a default transfer. With a hard reset
        the host starts with DATA0 again. */
    method ResetEndpoint(hard: bool)
      requires View().Running() || View().Idle() || View().Aborted()
      modifies this
      ensures View().Idle() && !ep.buffer.valid
      ensures hist.acked == if hard then 0 else old(hist.acked)
      ensures ep.isIn == old(ep.isIn) && ep.doubleBuffered == old(ep.doubleBuffered) && pb == old(pb)
    {
      ghost var s0 := View();
      ResetKeepsPid(s0, 0);
      hide State.Running, State.Core, State.Idle, State.Aborted;
      ep := ep.(running := false);
      ResetBuffers();
      ResetKeepsPid(s0, hw.selector);
      if hard {
        ep := ep.(nextPid := 0);
        hw := hw.(hostData1 := false);
        hist := hist.(acked := 0);
      }
      ep := ep.(buffer := ep.buffer.(valid := false));
      if ep.halted { ep := ep.(halted := false); }
      assert View() == if hard then HardResetStep(s0, hw.selector) else ResetStep(s0, hw.selector);
    }
  }
}
