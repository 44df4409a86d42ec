/** Whole PICOBOOT transfers: the stream of an endpoint, the one-slot task queue, and a worker that runs the tasks
    on memory between any two interrupts (usb_boot_device.c and async_task.c). */
module Picoboot {
  import opened Bits
  import opened StreamSpec
  import opened EngineSpec
  import opened EngineState
  import opened UsbEndpoint
  import opened UsbRuns

  /** FLASH_PAGE_SIZE */
  const PAGE: nat := 256

  lemma PageSize()
    ensures ValidChunkSize(PAGE) && PAGE % 64 == 0
  {
    assert Pow2(8) == 256;
  }

  /** The tasks of a command of `length` bytes at `address`, and how many there are. */
  function PageTask(address: int, length: nat, i: nat): Task {
    Task(address + PAGE * i, if PAGE * i > length then 0 else Min(PAGE, length - PAGE * i))
  }

  function PageCount(length: nat): nat { (length + PAGE - 1) / PAGE }

  /** Memory with `data` written at `address`. */
  function Write(memory: seq<Byte>, address: nat, data: seq<Byte>): (m: seq<Byte>)
    requires address + |data| <= |memory|
    ensures |m| == |memory|
  {
    memory[..address] + data + memory[address + |data|..]
  }

  /** Tasks finished by the worker. */
  ghost function FinishedTasks(s: State): int { |s.tasks| - s.Outstanding() }

  /** How far the transfer of a PICOBOOT command has come, with `done` tasks finished. */
  ghost predicate Executing(s: State, address: int, stream: seq<Byte>, done: nat) {
    && (s.Running() || s.Finished()) && s.picoboot && s.chunkSize == PAGE && s.stream == stream && s.firstAddress == address
    && s.taskAddress == address + Min(PAGE * done, |stream|) && PAGE * done < |stream| + PAGE
    && FinishedTasks(s) == done
  }

  /** The task the packet engine waits for: it is the next one in order, it is in the mailbox or with the worker,
      and an OUT chunk buffer holds its data. */
  lemma PendingTask(s: State, address: int, stream: seq<Byte>, done: nat)
    requires Executing(s, address, stream, done) && s.outstandingPacket
    ensures PAGE * done < |stream| && |s.tasks| == done + 1 && !s.completed
    ensures s.tasks[done] == PageTask(address, |stream|, done) && PendingLength(s) == s.tasks[done].length
    ensures s.mailbox + s.working == [s.tasks[done]]
    ensures !s.isIn ==>
      && PendingLength(s) <= |s.chunkBuffer|
      && s.chunkBuffer[..PendingLength(s)] == stream[PAGE * done..PAGE * done + PendingLength(s)]
    ensures s.isIn ==> s.offset == PAGE * done == 64 * s.packetsDone
  {
    assert s.Running();
    TaskInStream(s);
    if s.isIn { OutstandingPacketData(s, 0); }
    hide State.Core, Filled;
    assert s.tasks[done] == s.PlannedTask(done);
    if !s.isIn { assert ChunkAt(s.stream, s.chunkSize, done, s.chunks[done]); }
  }

  lemma NoPendingTask(s: State)
    requires (s.Running() && !s.outstandingPacket) || s.Finished()
    requires s.picoboot
    ensures s.mailbox == [] && s.working == []
  {
    hide State.Core, ClientIn, ClientOut;
  }

  /** The task address determines how many tasks are finished. */
  lemma FinishedFromAddress(s: State, address: int, stream: seq<Byte>, done: nat)
    requires s.Running() || s.Finished()
    requires s.picoboot && s.chunkSize == PAGE && s.stream == stream && s.firstAddress == address
    requires s.taskAddress == address + Min(PAGE * done, |stream|) && PAGE * done < |stream| + PAGE
    ensures Executing(s, address, stream, done)
  {
    if s.Running() && s.outstandingPacket { TaskInStream(s); } else { LastTaskInStream(s); }
    hide State.Core, ChunksUpTo, ClientIn, ClientOut;
    var m := FinishedTasks(s);
    assert s.taskAddress == address + Min(PAGE * m, |stream|);
  }

  lemma LastTaskInStream(s: State)
    requires (s.Running() && !s.outstandingPacket) || s.Finished()
    requires s.picoboot && s.chunkSize == PAGE
    ensures |s.tasks| > 0 ==> PAGE * (|s.tasks| - 1) < |s.stream|
  {
    var c := |s.chunks| - 1;
    hide State.Core, ChunkAt;
    if c >= 0 {
      assert ChunkAt(s.stream, s.chunkSize, c, s.chunks[c]);
      ChunkInStream(s.stream, PAGE, c, s.chunks[c]);
    }
  }

  lemma ChunkInStream(stream: seq<Byte>, size: nat, i: nat, c: Chunk)
    requires ChunkAt(stream, size, i, c)
    ensures size * i < |stream|
  {
  }

  /** A transfer that has just been started has finished no task. */
  lemma NothingFinished(s: State, address: int, stream: seq<Byte>)
    requires s.Running() && s.picoboot && s.chunkSize == PAGE && s.stream == stream && s.firstAddress == address
    requires s.taskAddress == address
    ensures Executing(s, address, stream, 0)
  {
    FinishedFromAddress(s, address, stream, 0);
  }

  /** After the last task the whole stream has been covered. */
  lemma AllFinished(s: State, address: int, stream: seq<Byte>, done: nat)
    requires s.Finished() && Executing(s, address, stream, done)
    ensures done == PageCount(|stream|) && s.wire == stream && s.completions == 1 && s.picoboot
    ensures Min(PAGE * done, |stream|) == |stream|
  {
  }

  /** The tasks run so far are those of the command, in order. */
  ghost predicate InOrder(executed: seq<Task>, address: int, length: nat) {
    forall i :: 0 <= i < |executed| ==> executed[i] == PageTask(address, length, i)
  }

  /** Memory after the first `done` tasks of a write. */
  function Stored(before: seq<Byte>, address: nat, stream: seq<Byte>, done: nat): (after: seq<Byte>)
    requires address + |stream| <= |before|
    ensures |after| == |before|
  {
    Write(before, address, stream[..Min(PAGE * done, |stream|)])
  }

  /** What the worker has done: `done` tasks are finished and written to memory, and one more may be running. */
  ghost predicate Worked(s: State, executed: seq<Task>, before: seq<Byte>, after: seq<Byte>, address: nat, done: nat)
    requires address + |s.stream| <= |before|
  {
    && InOrder(executed, address, |s.stream|) && |executed| == done + |s.working|
    && (s.working == [] || s.working == [PageTask(address, |s.stream|, done)])
    && after == (if s.isIn then before else Stored(before, address, s.stream, done))
  }

  /** Before an event: what is pending, and that there is something to wait for. */
  lemma NextEvent(s: State, executed: seq<Task>, before: seq<Byte>, after: seq<Byte>, address: nat, done: nat)
    requires address + |s.stream| <= |before|
    requires Executing(s, address, s.stream, done) && Worked(s, executed, before, after, address, done) && !s.completed
    ensures s.Running() && s.picoboot && |s.available| == 2 && Remaining(s) >= 0
    ensures s.chunkSize == PAGE && s.firstAddress == address
    ensures s.taskAddress == address + Min(PAGE * done, |s.stream|) && PAGE * done < |s.stream| + PAGE
    ensures !s.outstandingPacket ==> s.mailbox == [] && s.working == [] && CanMove(s.ep, s.hw)
    ensures s.outstandingPacket ==>
      && PAGE * done < |s.stream| && |s.mailbox| + |s.working| == 1
      && s.mailbox + s.working == [PageTask(address, |s.stream|, done)] && PendingLength(s) == (s.mailbox + s.working)[0].length
    ensures s.outstandingPacket && !s.isIn ==>
      && PendingLength(s) <= |s.chunkBuffer|
      && s.chunkBuffer[..PendingLength(s)] == s.stream[PAGE * done..PAGE * done + PendingLength(s)]
    ensures s.outstandingPacket && s.isIn ==> s.offset == PAGE * done == 64 * s.packetsDone
  {
    RunningBasics(s);
    hide State.Running, State.Finished, Worked;
    if s.outstandingPacket {
      PendingTask(s, address, s.stream, done);
    } else {
      NoPendingTask(s);
      SomethingAtHardware(s);
    }
  }

  /** The worker takes the next task. */
  lemma TakenInOrder(s: State, t: State, executed: seq<Task>, before: seq<Byte>, after: seq<Byte>, address: nat, done: nat)
    requires address + |s.stream| <= |before| && Worked(s, executed, before, after, address, done)
    requires s.mailbox == [PageTask(address, |s.stream|, done)] && s.working == []
    requires t == s.(pb := s.pb.(mailbox := [], working := s.mailbox))
    ensures Worked(t, executed + s.mailbox, before, after, address, done)
  {
  }

  /** A finished write extends the bytes written so far. */
  lemma WrittenInOrder(s: State, t: State, executed: seq<Task>, before: seq<Byte>, after: seq<Byte>, address: nat, done: nat)
    requires address + |s.stream| <= |before| && Worked(s, executed, before, after, address, done)
    requires t.stream == s.stream && t.isIn == s.isIn && t.working == [] && PAGE * done < |s.stream|
    requires s.working == [PageTask(address, |s.stream|, done)]
    ensures var from, n := PAGE * done, s.working[0].length;
      && from + n <= |s.stream| && address + from + n <= |after|
      && Worked(t, executed, before,
                if s.isIn then after else Write(after, s.working[0].address, s.stream[from..from + n]), address, done + 1)
  {
    PageOfStream(address, |s.stream|, done);
    StoredOn(before, address, s.stream, done);
    var from, to := PAGE * done, Min(PAGE * (done + 1), |s.stream|);
    assert s.working[0] == Task(address + from, to - from) && from <= to <= |s.stream|;
    hide Write, Stored, PageTask, InOrder, Min;
  }

  /** Storing the next page. */
  lemma StoredOn(before: seq<Byte>, address: nat, stream: seq<Byte>, done: nat)
    requires address + |stream| <= |before| && PAGE * done < |stream|
    ensures var from, to := PAGE * done, Min(PAGE * (done + 1), |stream|);
      Write(Stored(before, address, stream, done), address + from, stream[from..to]) == Stored(before, address, stream, done + 1)
  {
    WriteAppends(before, address, stream, PAGE * done, Min(PAGE * (done + 1), |stream|));
  }

  lemma PageOfStream(address: int, length: nat, i: nat)
    requires PAGE * i < length
    ensures PageTask(address, length, i) == Task(address + PAGE * i, Min(PAGE * (i + 1), length) - PAGE * i)
  {
  }

  /** Writing on where the last bytes of `data` written ended. */
  lemma WriteAppends(memory: seq<Byte>, address: nat, data: seq<Byte>, i: nat, j: nat)
    requires i <= j <= |data| && address + |data| <= |memory|
    ensures Write(Write(memory, address, data[..i]), address + i, data[i..j]) == Write(memory, address, data[..j])
  {
    assert data[..j] == data[..i] + data[i..j];
  }

  /** What a read task finds in memory is the next chunk of the stream. */
  lemma ReadInOrder(s: State, memory: seq<Byte>, address: nat, done: nat)
    requires address + |s.stream| <= |memory| && s.stream == memory[address..address + |s.stream|]
    requires s.chunkSize == PAGE && s.offset == PAGE * done < |s.stream|
    ensures var task := PageTask(address, |s.stream|, done);
      && task.address >= 0 && task.address + task.length <= |memory|
      && memory[task.address..task.address + task.length] == ChunkData(s)
  {
    var task := PageTask(address, |s.stream|, done);
    PartOfPart(memory, address, |s.stream|, s.offset, task.length);
  }

  lemma PartOfPart(s: seq<Byte>, from: nat, length: nat, at: nat, n: nat)
    requires from + length <= |s| && at + n <= length
    ensures s[from..from + length][at..at + n] == s[from + at..from + at + n]
  {
    var part := s[from..from + length];
    var u, v := part[at..at + n], s[from + at..from + at + n];
    forall i | 0 <= i < n ensures u[i] == v[i] {
      assert part[at + i] == s[from + (at + i)];
    }
  }

  /** Interrupts leave the worker's task alone. */
  lemma SameWork(s: State, t: State, executed: seq<Task>, before: seq<Byte>, after: seq<Byte>, address: nat, done: nat)
    requires address + |s.stream| <= |before| && Worked(s, executed, before, after, address, done)
    requires t.stream == s.stream && t.isIn == s.isIn && t.working == s.working
    ensures Worked(t, executed, before, after, address, done)
  {
  }

  lemma NothingWorked(s: State, before: seq<Byte>, address: nat)
    requires address + |s.stream| <= |before| && s.working == []
    ensures Worked(s, [], before, before, address, 0)
  {
  }

  /** What the run amounts to, finished or broken off by a failing task. */
  lemma Outcome(s: State, executed: seq<Task>, before: seq<Byte>, after: seq<Byte>, address: nat, done: nat)
    requires address + |s.stream| <= |before| && Worked(s, executed, before, after, address, done)
    requires Executing(s, address, s.stream, done) && (s.Finished() || (s.Running() && s.working != []))
    ensures InOrder(executed, address, |s.stream|) && s.tasks == executed
    ensures s.isIn && !s.Finished() ==> 64 * s.packetsDone == PAGE * (|executed| - 1)
    ensures s.isIn ==> after == before
    ensures if s.Finished() then
              && |executed| == PageCount(|s.stream|) && s.completions == 1 && s.wire == s.stream
              && (!s.isIn ==> after == Write(before, address, s.stream))
            else
              && 0 < |executed| <= PageCount(|s.stream|)
              && (!s.isIn ==> after == Write(before, address, s.stream[..Min(PAGE * (|executed| - 1), |s.stream|)]))
  {
    hide State.Running, State.Finished, Executing;
    RunningBasics(s);
    if s.Finished() {
      AllFinished(s, address, s.stream, done);
      NoPendingTask(s);
      assert s.stream[..|s.stream|] == s.stream;
    } else {
      NextEvent(s, executed, before, after, address, done);
    }
    TasksInOrder(s, executed, address, done);
  }

  /** Which task it takes for the other buffer to be at the hardware: not the first of a read, not the last of a
      write. */
  lemma OtherBesideTask(s: State, address: int, done: nat)
    requires Executing(s, address, s.stream, done) && s.Running() && s.outstandingPacket
    ensures OtherAtHardware(s) <==>
      s.doubleBuffered && !s.packetQueued && if s.isIn then done > 0 else PAGE * (done + 1) < |s.stream|
  {
    PendingTask(s, address, s.stream, done);
    OutstandingPacketData(s, 0);
    CoreBasics(s, QUIET);
    hide State.Core, ChunkAt, ZeroTails;
    if !s.isIn {
      var end := Position(|s.stream|, s.packetsDone + 1);
      assert |s.chunks| == done + 1 && s.offset == 64 * s.packetsDone && s.transferLength == |s.stream|;
      assert Min(PAGE * (done + 1), |s.stream|) == end;
    }
  }

  /** The tasks queued are the tasks run once none waits in the mailbox. */
  lemma TasksInOrder(s: State, executed: seq<Task>, address: nat, done: nat)
    requires Executing(s, address, s.stream, done) && InOrder(executed, address, |s.stream|)
    requires |executed| == done + |s.working| && (s.Finished() || (s.Running() && s.working != []))
    ensures s.tasks == executed
  {
    if s.Running() { PendingOrNot(s, address, done); } else { NoPendingTask(s); RunningBasics(s); }
    hide State.Core, ClientIn, ClientOut;
    forall i | 0 <= i < |s.tasks| ensures s.tasks[i] == executed[i] {
      assert s.tasks[i] == s.PlannedTask(i);
    }
  }

  lemma PendingOrNot(s: State, address: nat, done: nat)
    requires Executing(s, address, s.stream, done) && s.Running() && s.working != []
    ensures s.outstandingPacket && |s.working| == 1 && |s.tasks| == done + 1
  {
    if s.outstandingPacket { PendingTask(s, address, s.stream, done); } else { NoPendingTask(s); }
  }

  /** The run of a command so far. */
  ghost predicate Progressing(s: State, executed: seq<Task>, before: seq<Byte>, after: seq<Byte>, address: nat, done: nat) {
    && address + |s.stream| <= |before| && Executing(s, address, s.stream, done)
    && Worked(s, executed, before, after, address, done) && s.completed == s.Finished()
    && (s.isIn ==> s.stream == before[address..address + |s.stream|])
  }

  /** The worker finishes its task successfully: a read copies memory into the chunk buffer, a write stores the chunk
      buffer in memory. */
  method FinishTask(endpoint: Endpoint, executed: seq<Task>, ghost before: seq<Byte>, memory: seq<Byte>,
                    ghost address: nat, ghost done: nat) returns (after: seq<Byte>)
    requires Progressing(endpoint.View(), executed, before, memory, address, done)
    requires !endpoint.tr.completed && endpoint.pb.working != []
    modifies endpoint
    ensures Progressing(endpoint.View(), executed, before, after, address, done + 1)
    ensures endpoint.View().SameStream(old(endpoint.View()))
    ensures Remaining(endpoint.View()) < Remaining(old(endpoint.View()))
  {
    hide State.Running, State.Finished, State.Core, Executing, Worked;
    ghost var s := endpoint.View();
    NextEvent(s, executed, before, memory, address, done);
    var data;
    after, data := ExecuteTask(endpoint, executed, before, memory, address, done);
    endpoint.ChunkDone(data);
    FinishedFromAddress(endpoint.View(), address, s.stream, done + 1);
    SameWork(s.(pb := s.pb.(working := [])), endpoint.View(), executed, before, after, address, done + 1);
    RunningBasics(endpoint.View());
  }

  /** _execute_task for a read or write of RAM: what the chunk buffer gets, and memory afterwards. */
  method ExecuteTask(endpoint: Endpoint, ghost executed: seq<Task>, ghost before: seq<Byte>, memory: seq<Byte>,
                     ghost address: nat, ghost done: nat) returns (after: seq<Byte>, data: seq<Byte>)
    requires Progressing(endpoint.View(), executed, before, memory, address, done)
    requires !endpoint.tr.completed && endpoint.pb.working != []
    ensures endpoint.tr.offset <= |endpoint.log.stream| && (endpoint.ep.isIn ==> data == ChunkData(endpoint.View()))
    ensures var s := endpoint.View();
      Worked(s.(pb := s.pb.(working := [])), executed, before, after, address, done + 1)
  {
    hide State.Running, State.Finished, State.Core, Executing, Worked;
    ghost var s := endpoint.View();
    NextEvent(s, executed, before, memory, address, done);
    RunningBasics(s);
    WrittenInOrder(s, s.(pb := s.pb.(working := [])), executed, before, memory, address, done);
    var task := endpoint.pb.working[0];
    assert endpoint.pb.mailbox + endpoint.pb.working == endpoint.pb.working;
    after, data := memory, [];
    if endpoint.ep.isIn {
      ReadIsFromMemory(s, executed, before, memory, address, done);
      ReadInOrder(s, memory, address, done);
      data := memory[task.address..task.address + task.length];
    } else {
      after := memory[..task.address] + endpoint.tr.chunkBuffer[..task.length] + memory[task.address + task.length..];
    }
  }

  lemma ReadIsFromMemory(s: State, executed: seq<Task>, before: seq<Byte>, after: seq<Byte>, address: nat, done: nat)
    requires address + |s.stream| <= |before| && Worked(s, executed, before, after, address, done) && s.isIn
    ensures after == before
  {
  }

  /** The worker takes the next task from the mailbox. */
  method TakeTask(endpoint: Endpoint, executed: seq<Task>, ghost before: seq<Byte>, ghost after: seq<Byte>,
                  ghost address: nat, ghost done: nat) returns (more: seq<Task>)
    requires Progressing(endpoint.View(), executed, before, after, address, done)
    requires !endpoint.tr.completed && endpoint.pb.mailbox != []
    modifies endpoint
    ensures Progressing(endpoint.View(), more, before, after, address, done)
    ensures endpoint.View().SameStream(old(endpoint.View())) && endpoint.pb.mailbox == []
    ensures Remaining(endpoint.View()) == Remaining(old(endpoint.View()))
  {
    hide State.Running, State.Finished, State.Core, Executing, Worked;
    ghost var s := endpoint.View();
    NextEvent(s, executed, before, after, address, done);
    assert endpoint.pb.mailbox + endpoint.pb.working == endpoint.pb.mailbox;
    TakenInOrder(s, s.(pb := s.pb.(mailbox := [], working := s.mailbox)), executed, before, after, address, done);
    var task := endpoint.WorkerTakesTask();
    more := executed + [task];
    FinishedFromAddress(endpoint.View(), address, s.stream, done);
    RunningBasics(endpoint.View());
  }

  /** A packet completes on the bus. */
  method Interrupt(endpoint: Endpoint, ghost executed: seq<Task>, ghost before: seq<Byte>, ghost after: seq<Byte>,
                   ghost address: nat, ghost done: nat)
    requires Progressing(endpoint.View(), executed, before, after, address, done) && !endpoint.tr.completed
    requires CanMove(endpoint.ep, endpoint.hw)
    modifies endpoint
    ensures Progressing(endpoint.View(), executed, before, after, address, done)
    ensures endpoint.View().SameStream(old(endpoint.View()))
    ensures Remaining(endpoint.View()) < Remaining(old(endpoint.View()))
  {
    hide State.Running, State.Finished, State.Core, Executing, Worked;
    ghost var s := endpoint.View();
    NextEvent(s, executed, before, after, address, done);
    var asserted := endpoint.HardwareCompletes();
    assert asserted;
    FinishedFromAddress(endpoint.View(), address, s.stream, done);
    SameWork(s, endpoint.View(), executed, before, after, address, done);
    RunningBasics(endpoint.View());
  }

  lemma PageTransfer(isRead: bool, doubled: bool, length: nat)
    requires 0 < length && length + 63 < 0x1_0000_0000 && (isRead ==> length + PAGE <= 0x1_0000_0000)
    ensures ValidStream(isRead, doubled, length, PAGE)
  {
    PageSize();
  }

  /** What is left after a task failed: the transfer is given up, and nothing is queued or being run. */
  ghost predicate Failed(s: State, stream: seq<Byte>, queued: seq<Task>, packets: nat) {
    && s.Aborted() && s.picoboot && s.stream == stream && s.tasks == queued && s.packetsDone == packets
  }

  lemma FailedBasics(s: State, stream: seq<Byte>, queued: seq<Task>, packets: nat)
    requires Failed(s, stream, queued, packets)
    ensures s.mailbox == [] && s.working == [] && s.completions == 0 && |s.available| == 2 && s.Aborted() && s.picoboot
    ensures s.tasks == queued && s.wire <= stream && (s.isIn ==> |s.wire| <= 64 * packets)
    ensures !s.doubleBuffered ==> !s.available[0] && !s.available[1]
  {
  }

  /** The events that can follow a failed task: a packet the hardware still holds may complete, now or never. The
      worker has nothing to take. */
  method RunOn(endpoint: Endpoint, ghost stream: seq<Byte>, ghost queued: seq<Task>, ghost packets: nat)
    returns (asserted: bool)
    requires Failed(endpoint.View(), stream, queued, packets)
    modifies endpoint
    ensures Failed(endpoint.View(), stream, queued, packets) && endpoint.pb.picoboot
    ensures endpoint.ep.isIn == old(endpoint.ep.isIn) && endpoint.ep.doubleBuffered == old(endpoint.ep.doubleBuffered)
    ensures !asserted ==> endpoint.ep.doubleBuffered && old(endpoint.View().HeldCount()) > 0
  {
    hide State.Aborted;
    asserted := true;
    FailedBasics(endpoint.View(), stream, queued, packets);
    while CanMove(endpoint.ep, endpoint.hw)
      invariant Failed(endpoint.View(), stream, queued, packets) && |endpoint.hw.available| == 2 && endpoint.pb.picoboot
      invariant endpoint.ep.isIn == old(endpoint.ep.isIn) && endpoint.ep.doubleBuffered == old(endpoint.ep.doubleBuffered)
      invariant endpoint.View().HeldCount() <= old(endpoint.View().HeldCount())
      invariant !asserted ==> endpoint.ep.doubleBuffered && old(endpoint.View().HeldCount()) > 0
      decreases endpoint.View().HeldCount()
    {
      FailedBasics(endpoint.View(), stream, queued, packets);
      var never: bool := *;
      if never { break; }
      var holds := endpoint.HardwareCompletes();
      asserted := asserted && holds;
    }
  }

  /** A PICOBOOT read or write of the bytes at `address`, on an endpoint in whatever state earlier transfers have left
      it: `sent` is what the host sends. Between any two interrupts the worker may take a task from the mailbox or
      finish one. A task may fail; whatever happens after that, no task is queued any more. `asserted` says whether the
      debug assertion of _usb_handle_transfer held throughout. */
  method Transfer(endpoint: Endpoint, isRead: bool, memory: seq<Byte>, address: nat, length: nat, sent: seq<Byte>)
    returns (ok: bool, after: seq<Byte>, wire: seq<Byte>, executed: seq<Task>, queued: seq<Task>, acks: nat, asserted: bool)
    requires endpoint.View().Idle() && endpoint.pb.picoboot && endpoint.ep.isIn == isRead
    requires 0 < length && length + 63 < 0x1_0000_0000 && (isRead ==> length + PAGE <= 0x1_0000_0000)
    requires address + length <= |memory| && |sent| == length
    modifies endpoint
    ensures InOrder(executed, address, length) && 0 < |executed| <= PageCount(length) && queued == executed
    ensures ok ==> |executed| == PageCount(length) && acks == 1
    ensures ok && isRead ==> wire == memory[address..address + length]
    ensures ok && !isRead ==> after == Write(memory, address, sent)
    ensures !ok ==> acks == 0
    ensures !ok && isRead ==> wire <= memory[address..address + length] && |wire| <= PAGE * (|executed| - 1)
    ensures !ok && !isRead ==> after == Write(memory, address, sent[..Min(PAGE * (|executed| - 1), length)])
    ensures isRead ==> after == memory
    ensures !asserted ==>
      !ok && endpoint.ep.doubleBuffered && if isRead then |executed| > 1 else PAGE * |executed| < length
    ensures if ok then endpoint.View().Idle() else endpoint.View().Aborted()
    ensures endpoint.pb.picoboot && endpoint.ep.isIn == isRead && endpoint.ep.doubleBuffered == old(endpoint.ep.doubleBuffered)
  {
    hide State.Running, State.Finished, State.Idle, State.Aborted, ValidStream, Executing, Worked, Failed, OtherAtHardware;
    PageSize();
    var stream := if isRead then memory[address..address + length] else sent;
    PageTransfer(isRead, endpoint.ep.doubleBuffered, length);
    endpoint.StartTransfer(stream, PAGE, address);
    after, executed, ok, asserted := memory, [], true, true;
    ghost var done: nat := 0;
    NothingFinished(endpoint.View(), address, stream);
    NothingWorked(endpoint.View(), memory, address);
    RunningBasics(endpoint.View());
    while !endpoint.tr.completed
      invariant endpoint.ep.isIn == isRead && endpoint.log.stream == stream && ok && endpoint.pb.picoboot
      invariant endpoint.ep.doubleBuffered == old(endpoint.ep.doubleBuffered)
      invariant Progressing(endpoint.View(), executed, memory, after, address, done)
      decreases Remaining(endpoint.View()), |endpoint.pb.mailbox|
    {
      var failed;
      executed, after, failed, done := TransferEvent(endpoint, executed, memory, after, address, done);
      if failed {
        Outcome(endpoint.View(), executed, memory, after, address, done);
        OtherBesideTask(endpoint.View(), address, done);
        asserted := FailTask(endpoint, executed, memory, after, address, done);
        ok := false;
        break;
      }
    }
    if ok {
      Outcome(endpoint.View(), executed, memory, after, address, done);
      FinishedBasics(endpoint.View());
    }
    wire, acks, queued := endpoint.log.wire, endpoint.log.completions, endpoint.log.tasks;
  }

  /** The worker takes a task, or finishes the one it has, or a packet completes on the bus; or `failed`, and nothing has
      changed yet. */
  method TransferEvent(endpoint: Endpoint, executed: seq<Task>, ghost before: seq<Byte>, memory: seq<Byte>,
                       ghost address: nat, ghost done: nat)
    returns (more: seq<Task>, after: seq<Byte>, failed: bool, ghost doneAfter: nat)
    requires Progressing(endpoint.View(), executed, before, memory, address, done) && !endpoint.tr.completed
    modifies endpoint
    ensures Progressing(endpoint.View(), more, before, after, address, doneAfter)
    ensures endpoint.View().SameStream(old(endpoint.View()))
    ensures failed ==>
      && endpoint.View().Running() && !endpoint.tr.completed && endpoint.pb.working != [] && endpoint.tr.outstandingPacket
      && |more| == doneAfter + 1
    ensures !failed ==>
      || 0 <= Remaining(endpoint.View()) < Remaining(old(endpoint.View()))
      || (Remaining(endpoint.View()) == Remaining(old(endpoint.View())) && |endpoint.pb.mailbox| < |old(endpoint.pb.mailbox)|)
  {
    hide State.Running, State.Finished, Executing, Worked;
    NextEvent(endpoint.View(), executed, before, memory, address, done);
    more, after, failed, doneAfter := executed, memory, false, done;
    var atHardware := CanMove(endpoint.ep, endpoint.hw);
    var workerFirst: bool := *;
    if endpoint.pb.working != [] && (workerFirst || !atHardware) {
      failed := *;
      if !failed {
        after := FinishTask(endpoint, executed, before, memory, address, done);
        doneAfter := done + 1;
      }
    } else if endpoint.pb.mailbox != [] && (workerFirst || !atHardware) {
      more := TakeTask(endpoint, executed, before, memory, address, done);
    } else {
      Interrupt(endpoint, executed, before, memory, address, done);
    }
    StillProgressing(endpoint.View(), more, before, after, address, doneAfter);
    if failed { WorkingOnNext(endpoint.View(), more, before, after, address, doneAfter); }
  }

  lemma WorkingOnNext(s: State, executed: seq<Task>, before: seq<Byte>, after: seq<Byte>, address: nat, done: nat)
    requires Progressing(s, executed, before, after, address, done) && s.working != []
    ensures |executed| == done + 1
  {
    hide Executing, State.Finished;
  }

  lemma StillProgressing(s: State, executed: seq<Task>, before: seq<Byte>, after: seq<Byte>, address: nat, done: nat)
    requires Progressing(s, executed, before, after, address, done)
    ensures Remaining(s) >= 0
  {
    RemainingBounds(s);
  }

  /** The worker's task fails, and the run goes on without it. */
  method FailTask(endpoint: Endpoint, ghost executed: seq<Task>, ghost before: seq<Byte>, ghost after: seq<Byte>,
                  ghost address: nat, ghost done: nat) returns (asserted: bool)
    requires Progressing(endpoint.View(), executed, before, after, address, done)
    requires !endpoint.tr.completed && endpoint.pb.working != []
    modifies endpoint
    ensures endpoint.log.tasks == old(endpoint.log.tasks) && endpoint.log.completions == 0
    ensures endpoint.log.wire <= old(endpoint.log.stream)
    ensures old(endpoint.ep.isIn) ==> |endpoint.log.wire| <= 64 * old(endpoint.hist.packetsDone)
    ensures !asserted ==> old(OtherAtHardware(endpoint.View()))
    ensures endpoint.View().Aborted() && endpoint.pb.picoboot && endpoint.ep.isIn == old(endpoint.ep.isIn)
    ensures endpoint.ep.doubleBuffered == old(endpoint.ep.doubleBuffered)
  {
    hide State.Running, State.Finished, State.Aborted, State.Core, Executing, Worked, Failed, OtherAtHardware;
    ghost var s := endpoint.View();
    NextEvent(s, executed, before, after, address, done);
    OtherAtHardwareExact(s);
    RunningHeld(s);
    endpoint.ChunkFailed();
    HasFailed(s, endpoint.View());
    asserted := RunOn(endpoint, s.stream, s.tasks, s.packetsDone);
    FailedBasics(endpoint.View(), s.stream, s.tasks, s.packetsDone);
  }

  lemma HasFailed(s: State, t: State)
    requires t.Aborted() && t.log == s.log && t.hist == s.hist && t.picoboot
    ensures Failed(t, s.stream, s.tasks, s.packetsDone)
  {
  }

  // ---- sequences of commands -----------------------------------------------------------------------------

  /** What a host asks for. */
  datatype Command = Read(address: nat, length: nat) | Store(address: nat, data: seq<Byte>)

  /** What the host gets: success, the bytes of a read, and how many tasks were run for it. */
  datatype Reply = Reply(ok: bool, data: seq<Byte>, tasks: nat)

  function CommandLength(c: Command): nat { if c.Read? then c.length else |c.data| }

  ghost predicate ValidCommand(c: Command, size: nat) {
    && 0 < CommandLength(c) && CommandLength(c) + 63 < 0x1_0000_0000 && c.address + CommandLength(c) <= size
    && (c.Read? ==> CommandLength(c) + PAGE <= 0x1_0000_0000)
  }

  /** Memory after a command: a failed write has stored the pages of the tasks before the failing one. */
  function AfterCommand(memory: seq<Byte>, c: Command, r: Reply): (after: seq<Byte>)
    requires c.address + CommandLength(c) <= |memory|
    ensures |after| == |memory|
  {
    if c.Read? then memory
    else
      var stored := if r.ok || r.tasks == 0 then |c.data| else Min(PAGE * (r.tasks - 1), |c.data|);
      Write(memory, c.address, c.data[..stored])
  }

  /** A read gets the bytes that are in memory, or the first of them. */
  predicate RightReply(memory: seq<Byte>, c: Command, r: Reply)
    requires c.address + CommandLength(c) <= |memory|
  {
    && 0 < r.tasks <= PageCount(CommandLength(c)) && (r.ok ==> r.tasks == PageCount(CommandLength(c)))
    && (c.Read? ==>
          var there := memory[c.address..c.address + c.length];
          if r.ok then r.data == there else r.data <= there)
  }

  ghost predicate ValidCommands(commands: seq<Command>, size: nat) {
    forall i :: 0 <= i < |commands| ==> ValidCommand(commands[i], size)
  }

  /** Memory after the first n commands. */
  ghost function AfterCommands(memory: seq<Byte>, commands: seq<Command>, replies: seq<Reply>, n: nat): (after: seq<Byte>)
    requires n <= |commands| && n <= |replies| && ValidCommands(commands, |memory|)
    ensures |after| == |memory|
  {
    if n == 0 then memory
    else
      assert ValidCommand(commands[n - 1], |memory|);
      AfterCommand(AfterCommands(memory, commands, replies, n - 1), commands[n - 1], replies[n - 1])
  }

  /** Every command got the right reply from memory as the commands before it had left it. */
  ghost predicate RightReplies(memory: seq<Byte>, commands: seq<Command>, replies: seq<Reply>, n: nat)
    requires n <= |commands| && n <= |replies| && ValidCommands(commands, |memory|)
  {
    forall i :: 0 <= i < n ==>
      ValidCommand(commands[i], |memory|) && RightReply(AfterCommands(memory, commands, replies, i), commands[i], replies[i])
  }

  /** One command after the other on PICOBOOT's two endpoints, each from the state in which the commands before it have
      left its endpoint. The host resets an endpoint after a failed command, and may do so at any time. */
  method RunCommands(outEndpoint: Endpoint, inEndpoint: Endpoint, memory: seq<Byte>, commands: seq<Command>)
    returns (replies: seq<Reply>, after: seq<Byte>)
    requires outEndpoint.View().Idle() && outEndpoint.pb.picoboot && !outEndpoint.ep.isIn
    requires inEndpoint.View().Idle() && inEndpoint.pb.picoboot && inEndpoint.ep.isIn
    requires ValidCommands(commands, |memory|)
    modifies outEndpoint, inEndpoint
    ensures |replies| == |commands| && after == AfterCommands(memory, commands, replies, |commands|)
    ensures RightReplies(memory, commands, replies, |commands|)
    ensures outEndpoint.View().Idle() && inEndpoint.View().Idle()
  {
    hide State.Idle, State.Aborted, RightReply, AfterCommand;
    replies, after := [], memory;
    for n := 0 to |commands|
      invariant outEndpoint.View().Idle() && outEndpoint.pb.picoboot && !outEndpoint.ep.isIn
      invariant inEndpoint.View().Idle() && inEndpoint.pb.picoboot && inEndpoint.ep.isIn
      invariant |replies| == n && after == AfterCommands(memory, commands, replies, n)
      invariant RightReplies(memory, commands, replies, n)
    {
      var command := commands[n];
      assert ValidCommand(command, |memory|);
      var reply, stored := RunCommand(if command.Read? then inEndpoint else outEndpoint, after, command);
      OneMoreReply(memory, commands, replies, reply);
      replies, after := replies + [reply], stored;
    }
  }

  /** One command, with a reset of its endpoint afterwards if it failed or the host wants one. */
  method RunCommand(endpoint: Endpoint, memory: seq<Byte>, command: Command) returns (reply: Reply, after: seq<Byte>)
    requires endpoint.View().Idle() && endpoint.pb.picoboot && endpoint.ep.isIn == command.Read?
    requires ValidCommand(command, |memory|)
    modifies endpoint
    ensures RightReply(memory, command, reply) && after == AfterCommand(memory, command, reply)
    ensures endpoint.View().Idle() && endpoint.pb.picoboot && endpoint.ep.isIn == command.Read?
  {
    hide State.Idle, State.Aborted;
    var sent := if command.Read? then memory[command.address..command.address + command.length] else command.data;
    var ok, stored, wire, executed, _, _, _ :=
      Transfer(endpoint, command.Read?, memory, command.address, CommandLength(command), sent);
    var reset: bool := *;
    if !ok || reset { endpoint.ResetEndpoint(false); }
    reply, after := Reply(ok, if command.Read? then wire else [], |executed|), stored;
    if command.Store? && ok { assert command.data[..|command.data|] == command.data; }
  }

  lemma {:induction false} SameReplies(memory: seq<Byte>, commands: seq<Command>, replies: seq<Reply>, r: Reply, n: nat)
    requires ValidCommands(commands, |memory|) && n <= |replies| < |commands|
    ensures AfterCommands(memory, commands, replies + [r], n) == AfterCommands(memory, commands, replies, n)
  {
    if n > 0 { SameReplies(memory, commands, replies, r, n - 1); }
  }

  lemma OneMoreReply(memory: seq<Byte>, commands: seq<Command>, replies: seq<Reply>, r: Reply)
    requires ValidCommands(commands, |memory|) && |replies| < |commands| && RightReplies(memory, commands, replies, |replies|)
    requires ValidCommand(commands[|replies|], |memory|)
    requires RightReply(AfterCommands(memory, commands, replies, |replies|), commands[|replies|], r)
    ensures RightReplies(memory, commands, replies + [r], |replies| + 1)
    ensures AfterCommands(memory, commands, replies + [r], |replies| + 1)
         == AfterCommand(AfterCommands(memory, commands, replies, |replies|), commands[|replies|], r)
  {
    LastReply(memory, commands, replies, r);
    hide RightReply, AfterCommand, AfterCommands, CommandLength;
    var more := replies + [r];
    forall i | 0 <= i < |more|
      ensures ValidCommand(commands[i], |memory|) && RightReply(AfterCommands(memory, commands, more, i), commands[i], more[i])
    {
      if i < |replies| { EarlierReply(memory, commands, replies, r, i); } else { SameReplies(memory, commands, replies, r, i); }
    }
  }

  lemma EarlierReply(memory: seq<Byte>, commands: seq<Command>, replies: seq<Reply>, r: Reply, i: nat)
    requires ValidCommands(commands, |memory|) && i < |replies| < |commands| && RightReplies(memory, commands, replies, |replies|)
    ensures ValidCommand(commands[i], |memory|)
    ensures RightReply(AfterCommands(memory, commands, replies + [r], i), commands[i], (replies + [r])[i])
  {
    SameReplies(memory, commands, replies, r, i);
    hide RightReply, AfterCommand, AfterCommands, CommandLength;
  }

  lemma LastReply(memory: seq<Byte>, commands: seq<Command>, replies: seq<Reply>, r: Reply)
    requires ValidCommands(commands, |memory|) && |replies| < |commands| && ValidCommand(commands[|replies|], |memory|)
    ensures AfterCommands(memory, commands, replies + [r], |replies| + 1)
         == AfterCommand(AfterCommands(memory, commands, replies, |replies|), commands[|replies|], r)
  {
    SameReplies(memory, commands, replies, r, |replies|);
    assert (replies + [r])[|replies|] == r;
    hide AfterCommand;
  }

  /** A command that cannot change the bytes of a range: a read, or a write somewhere else. */
  predicate Leaves(c: Command, address: nat, length: nat) {
    c.Read? || c.address + |c.data| <= address || address + length <= c.address
  }

  lemma {:induction false} RangeKept(memory: seq<Byte>, commands: seq<Command>, replies: seq<Reply>, i: nat, j: nat,
                                     address: nat, length: nat)
    requires ValidCommands(commands, |memory|) && i <= j <= |commands| == |replies| && address + length <= |memory|
    requires forall k :: i <= k < j ==> Leaves(commands[k], address, length)
    ensures AfterCommands(memory, commands, replies, j)[address..address + length]
         == AfterCommands(memory, commands, replies, i)[address..address + length]
    decreases j - i
  {
    if i < j {
      RangeKept(memory, commands, replies, i, j - 1, address, length);
      var before, c := AfterCommands(memory, commands, replies, j - 1), commands[j - 1];
      assert ValidCommand(c, |memory|) && Leaves(c, address, length);
      CommandLeaves(before, c, replies[j - 1], address, length);
      NextCommand(memory, commands, replies, j - 1);
      hide AfterCommands, AfterCommand;
    }
  }

  lemma CommandLeaves(memory: seq<Byte>, c: Command, r: Reply, address: nat, length: nat)
    requires c.address + CommandLength(c) <= |memory| && address + length <= |memory| && Leaves(c, address, length)
    ensures AfterCommand(memory, c, r)[address..address + length] == memory[address..address + length]
  {
    var after := AfterCommand(memory, c, r);
    var now, was := after[address..address + length], memory[address..address + length];
    forall k | 0 <= k < length ensures now[k] == was[k] {
      assert after[address + k] == memory[address + k];
    }
  }

  /** What was written is read back, if no command between writes there. */
  lemma ReadsBack(memory: seq<Byte>, commands: seq<Command>, replies: seq<Reply>, i: nat, j: nat)
    requires ValidCommands(commands, |memory|) && i < j < |commands| == |replies|
    requires RightReplies(memory, commands, replies, |commands|)
    requires commands[i].Store? && replies[i].ok && replies[j].ok
    requires commands[j] == Read(commands[i].address, |commands[i].data|)
    requires forall k :: i < k < j ==> Leaves(commands[k], commands[i].address, |commands[i].data|)
    ensures replies[j].data == commands[i].data
  {
    hide AfterCommands, AfterCommand, RightReplies, Leaves, ValidCommands;
    var c := commands[i];
    NextCommand(memory, commands, replies, i);
    StoredWhole(AfterCommands(memory, commands, replies, i), c, replies[i]);
    ReplyToRead(memory, commands, replies, j);
    RangeKept(memory, commands, replies, i + 1, j, c.address, |c.data|);
  }

  /** A successful read gets what is in memory when its turn has come. */
  lemma ReplyToRead(memory: seq<Byte>, commands: seq<Command>, replies: seq<Reply>, j: nat)
    requires ValidCommands(commands, |memory|) && j < |commands| == |replies|
    requires RightReplies(memory, commands, replies, |commands|)
    requires commands[j].Read? && replies[j].ok
    ensures var c := commands[j];
      && c.address + c.length <= |memory|
      && replies[j].data == AfterCommands(memory, commands, replies, j)[c.address..c.address + c.length]
  {
    hide AfterCommands;
    assert RightReply(AfterCommands(memory, commands, replies, j), commands[j], replies[j]);
  }

  lemma StoredWhole(memory: seq<Byte>, c: Command, r: Reply)
    requires c.Store? && r.ok && c.address + |c.data| <= |memory|
    ensures AfterCommand(memory, c, r)[c.address..c.address + |c.data|] == c.data
  {
    assert c.data[..|c.data|] == c.data;
  }

  lemma NextCommand(memory: seq<Byte>, commands: seq<Command>, replies: seq<Reply>, n: nat)
    requires ValidCommands(commands, |memory|) && n < |commands| && n < |replies|
    ensures ValidCommand(commands[n], |memory|)
    ensures AfterCommands(memory, commands, replies, n + 1)
         == AfterCommand(AfterCommands(memory, commands, replies, n), commands[n], replies[n])
  {
    hide AfterCommand;
  }

  // ---- a completion after a failed task ------------------------------------------------------------------

  /** Until the first page is complete, its packets are on their way. */
  lemma PacketsAtHardware(s: State, sent: seq<Byte>)
    requires Executing(s, 0, sent, 0) && s.Running() && !s.isIn && |sent| == 320 && s.hwDone < 4
    ensures CanMove(s.ep, s.hw)
  {
    hide State.Running;
    if s.outstandingPacket { FirstPageArrived(s, sent); } else { SomethingAtHardware(s); }
  }

  lemma FirstPageArrived(s: State, sent: seq<Byte>)
    requires Executing(s, 0, sent, 0) && s.Running() && !s.isIn && |sent| == 320 && s.outstandingPacket
    ensures s.hwDone >= 4
  {
    hide State.Registers, State.Memory, State.Shape, ZeroTails;
    assert |s.chunks| == 1;
  }

  lemma ExecutingRuns(s: State, sent: seq<Byte>)
    requires Executing(s, 0, sent, 0)
    ensures s.Running() || s.Finished()
  {
  }

  lemma NotYetFinished(s: State, sent: seq<Byte>)
    requires Executing(s, 0, sent, 0) && |sent| == 320
    ensures s.Running() && !s.completed
  {
    hide Executing, State.Finished, State.Running;
    if s.Finished() { AllFinished(s, 0, sent, 0); } else { ExecutingRuns(s, sent); }
    RunningBasics(s);
  }

  /** When four packets have arrived, the first page waits for its task, and the fifth packet is on its way. */
  lemma FirstPagePending(s: State, sent: seq<Byte>)
    requires Executing(s, 0, sent, 0) && s.Running() && !s.isIn && s.doubleBuffered && |sent| == 320 && s.hwDone == 4
    ensures s.outstandingPacket && OtherAtHardware(s) && (s.mailbox != [] || s.working != [])
  {
    FirstPageDeferred(s, sent);
    PendingTask(s, 0, sent, 0);
    OutstandingPacketData(s, 0);
    CoreBasics(s, QUIET);
  }

  lemma FirstPageDeferred(s: State, sent: seq<Byte>)
    requires Executing(s, 0, sent, 0) && s.Running() && !s.isIn && |sent| == 320 && s.hwDone == 4
    ensures s.outstandingPacket && !s.packetQueued && s.packetsDone == 3
  {
    hide State.Registers, State.Memory, State.Shape, ZeroTails;
    assert s.hwDone == s.packetsDone + s.Outstanding() + s.Queued();
    assert |s.chunks| == s.Outstanding();
  }

  /** The run that shows the debug assertion of _usb_handle_transfer failing, on any idle double-buffered OUT endpoint:
      a write of five packets, of which four have arrived when the task of the first page fails; then the fifth
      completes. */
  method LateCompletion(endpoint: Endpoint) returns (asserted: bool)
    requires endpoint.View().Idle() && endpoint.pb.picoboot && !endpoint.ep.isIn && endpoint.ep.doubleBuffered
    modifies endpoint
    ensures !asserted
  {
    hide State.Running, State.Finished, State.Idle, State.Aborted, Executing, OtherAtHardware, ValidStream;
    var sent: seq<Byte> := seq(320, i => 0);
    PageTransfer(false, true, 320);
    endpoint.StartTransfer(sent, PAGE, 0);
    NothingFinished(endpoint.View(), 0, sent);
    NotYetFinished(endpoint.View(), sent);
    for n := 0 to 4
      invariant Executing(endpoint.View(), 0, sent, 0) && endpoint.View().Running() && endpoint.hist.hwDone == n
      invariant endpoint.ep.doubleBuffered && !endpoint.ep.isIn && endpoint.tr.chunkSize == PAGE && endpoint.pb.picoboot
      invariant endpoint.log.stream == sent && endpoint.hist.firstAddress == endpoint.pb.taskAddress == 0
    {
      PacketsAtHardware(endpoint.View(), sent);
      var _ := endpoint.HardwareCompletes();
      FinishedFromAddress(endpoint.View(), 0, sent, 0);
      NotYetFinished(endpoint.View(), sent);
    }
    FirstPagePending(endpoint.View(), sent);
    if endpoint.pb.working == [] {
      var _ := endpoint.WorkerTakesTask();
      FinishedFromAddress(endpoint.View(), 0, sent, 0);
      FirstPagePending(endpoint.View(), sent);
    }
    OtherAtHardwareExact(endpoint.View());
    RunningHeld(endpoint.View());
    RunningBasics(endpoint.View());
    endpoint.ChunkFailed();
    StageBasics(endpoint.View());
    asserted := endpoint.HardwareCompletes();
  }
}
