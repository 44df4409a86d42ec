/** The flash programmer's SPI pump (flash_put_get in program_flash_generic.c) beside a serial controller that
    moves bytes through its FIFOs whenever it likes. */
module SpiPump {
  import opened Bits

  const DEPTH: nat := 16      // of each FIFO
  const INSIDE: nat := 2      // bytes the controller can hold between the FIFOs
  const MAX_IN_FLIGHT: nat := 16 - 2

  /** What the device answers to byte i of the bytes it gets; it may remember all the earlier ones. */
  function Answer(reply: seq<Byte> -> Byte, bytes: seq<Byte>, i: nat): Byte
    requires i < |bytes|
  {
    reply(bytes[..i + 1])
  }

  /** Later bytes do not change earlier answers. */
  lemma SameAnswers(reply: seq<Byte> -> Byte, bytes: seq<Byte>, more: seq<Byte>)
    ensures forall i :: 0 <= i < |bytes| ==> Answer(reply, bytes + more, i) == Answer(reply, bytes, i)
  {
    forall i | 0 <= i < |bytes| ensures Answer(reply, bytes + more, i) == Answer(reply, bytes, i) {
      assert (bytes + more)[..i + 1] == bytes[..i + 1];
    }
  }

  /** The controller: bytes written to the data register wait in `tx`, are inside the controller while they are
      exchanged with the device, and leave a reply in `rx`. `wire` is what the device has got so far. */
  class Ssi {
    const reply: seq<Byte> -> Byte
    var tx: seq<Byte>
    var inside: seq<Byte>
    var rx: seq<Byte>
    var wire: seq<Byte>
    var overflowed: bool
    ghost var received: nat   // replies read from the data register so far

    /** Every byte written to the data register so far. */
    ghost function Sent(): seq<Byte>
      reads this
    {
      wire + inside + tx
    }

    ghost function InFlight(): nat
      reads this
    {
      |tx| + |inside| + |rx|
    }

    /** Steps until every byte in flight has been answered and read. */
    ghost function Load(): nat
      reads this
    {
      3 * |tx| + 2 * |inside| + |rx|
    }

    /** No FIFO ever overflowed, and the replies wait in order. */
    ghost predicate Valid()
      reads this
    {
      && !overflowed && InFlight() <= DEPTH && |inside| <= INSIDE
      && |wire| == received + |rx|
      && forall i :: received <= i < |wire| ==> rx[i - received] == Answer(reply, wire, i)
    }

    /** One step of the hardware, if it can take one: a byte enters the shifter, or the exchange of one ends. */
    method Step(enter: bool)
      requires Valid()
      modifies this`tx, this`inside, this`rx, this`wire, this`overflowed
      ensures Valid() && Sent() == old(Sent()) && InFlight() == old(InFlight())
      ensures |tx| <= old(|tx|) && |rx| >= old(|rx|)
      ensures Load() == (if old(tx == [] && inside == []) then old(Load()) else old(Load()) - 1)
    {
      if tx != [] && |inside| < INSIDE && (enter || inside == []) {
        inside := inside + [tx[0]];
        tx := tx[1..];
      } else if inside != [] {
        Exchange();
      }
    }

    /** The exchange of the oldest byte inside ends; its answer is lost if there is no room. */
    method Exchange()
      requires Valid() && inside != []
      modifies this`inside, this`rx, this`wire, this`overflowed
      ensures Valid() && Sent() == old(Sent()) && InFlight() == old(InFlight())
      ensures |rx| == old(|rx|) + 1 && |inside| == old(|inside|) - 1
    {
      SameAnswers(reply, wire, [inside[0]]);
      wire := wire + [inside[0]];
      inside := inside[1..];
      assert wire[..|wire|] == wire;
      overflowed := overflowed || |rx| >= DEPTH;
      rx := if |rx| < DEPTH then rx + [reply(wire)] else rx;
    }

    /** Any number of steps, at least `least` of them. */
    method Run(least: nat)
      requires Valid()
      modifies this`tx, this`inside, this`rx, this`wire, this`overflowed
      ensures Valid() && Sent() == old(Sent()) && InFlight() == old(InFlight())
      ensures |tx| <= old(|tx|) && |rx| >= old(|rx|)
      ensures Load() <= old(Load())
      ensures least > 0 && old(tx != [] || inside != []) ==> Load() < old(Load())
    {
      var more: int := *;
      if more < 0 { more := 0; }
      for i := 0 to least + more
        invariant Valid() && Sent() == old(Sent()) && InFlight() == old(InFlight())
        invariant |tx| <= old(|tx|) && |rx| >= old(|rx|) && Load() <= old(Load())
        invariant i > 0 && old(tx != [] || inside != []) ==> Load() < old(Load())
      {
        var enter: bool := *;
        Step(enter);
      }
    }

    /** Writing to the data register. */
    method Write(b: Byte)
      requires Valid() && InFlight() < DEPTH
      modifies this`tx
      ensures Valid() && tx == old(tx) + [b] && Sent() == old(Sent()) + [b]
      ensures InFlight() == old(InFlight()) + 1 && Load() == old(Load()) + 3
    {
      tx := tx + [b];
    }

    /** Reading from the data register: the oldest reply. */
    method Read() returns (b: Byte)
      requires Valid() && rx != []
      modifies this`rx, this`received
      ensures Valid() && received == old(received) + 1 && Sent() == old(Sent())
      ensures InFlight() == old(InFlight()) - 1 && Load() == old(Load()) - 1
      ensures old(received) < |Sent()| && b == Answer(reply, Sent(), old(received))
    {
      SameAnswers(reply, wire, inside + tx);
      assert wire + (inside + tx) == Sent();
      b := rx[0];
      assert b == Answer(reply, wire, received);
      rx := rx[1..];
      received := received + 1;
    }
  }

  /** The bytes to send: those of the buffer, or zeros. */
  ghost function Payload(tx: array?<Byte>, count: nat): (p: seq<Byte>)
    requires tx != null ==> count <= tx.Length
    reads tx
    ensures |p| == count
  {
    if tx == null then seq(count, i => 0) else tx[..count]
  }

  /** rx[..n] holds the answers to the bytes of `sent` from index `from` on. */
  ghost predicate Answered(reply: seq<Byte> -> Byte, sent: seq<Byte>, from: nat, rx: array?<Byte>, n: nat)
    reads rx
  {
    from + n <= |sent| && (rx != null ==> n <= rx.Length && forall j :: 0 <= j < n ==> rx[j] == Answer(reply, sent, from + j))
  }

  lemma AnsweredGrows(reply: seq<Byte> -> Byte, sent: seq<Byte>, more: seq<Byte>, from: nat, rx: array?<Byte>, n: nat)
    requires Answered(reply, sent, from, rx, n)
    ensures Answered(reply, sent + more, from, rx, n)
  {
    SameAnswers(reply, sent, more);
  }

  /** The state of the pump: what is still to send, to drop and to store. */
  ghost predicate Pumping(ssi: Ssi, tx: array?<Byte>, rx: array?<Byte>, base: seq<Byte>, payload: seq<Byte>,
                          txCount: nat, rxCount: nat, skip: nat)
    reads ssi, tx, rx
  {
    var count := |payload|;
    && txCount <= count && rxCount <= count && (skip > 0 ==> rxCount == count)
    && ssi.Valid() && ssi.InFlight() == skip + rxCount - txCount
    && ssi.Sent() == base + payload[..count - txCount] && ssi.received + skip + rxCount == |base| + count
    && Answered(ssi.reply, ssi.Sent(), |base|, rx, count - rxCount)
    && (if tx == null then forall i :: count - txCount <= i < count ==> payload[i] == 0
        else count <= tx.Length && forall i :: count - txCount <= i < count ==> payload[i] == tx[i])
    && (rx != null ==> count <= rx.Length)
  }

  /** The next byte of the buffer goes to the controller. */
  method SendNext(ssi: Ssi, tx: array?<Byte>, ghost rx: array?<Byte>, ghost base: seq<Byte>, ghost payload: seq<Byte>,
                  count: nat, txCount: nat, ghost rxCount: nat, ghost skip: nat)
    requires Pumping(ssi, tx, rx, base, payload, txCount, rxCount, skip) && count == |payload|
    requires txCount > 0 && ssi.InFlight() < DEPTH
    modifies ssi`tx
    ensures Pumping(ssi, tx, rx, base, payload, txCount - 1, rxCount, skip)
    ensures ssi.Load() == old(ssi.Load()) + 3 && ssi.rx == old(ssi.rx)
  {
    hide Ssi.Valid, Ssi.Sent;
    ghost var sent := ssi.Sent();
    var b: Byte := 0;
    if tx != null { b := tx[count - txCount]; }
    ssi.Write(b);
    AnsweredGrows(ssi.reply, sent, [b], |base|, rx, count - rxCount);
    assert payload[..count - (txCount - 1)] == payload[..count - txCount] + [b];
    assert base + payload[..count - txCount] + [b] == base + (payload[..count - txCount] + [b]);
  }

  /** The oldest reply is dropped or stored. */
  method ReceiveNext(ssi: Ssi, ghost tx: array?<Byte>, rx: array?<Byte>, ghost base: seq<Byte>, ghost payload: seq<Byte>,
                     count: nat, ghost txCount: nat, rxCount: nat, skip: nat) returns (rxCount': nat, skip': nat)
    requires Pumping(ssi, tx, rx, base, payload, txCount, rxCount, skip) && count == |payload|
    requires ssi.rx != []
    modifies ssi`rx, ssi`received, rx
    ensures Pumping(ssi, tx, rx, base, payload, txCount, rxCount', skip') && skip' + rxCount' == skip + rxCount - 1
    ensures skip' <= skip && rxCount' <= rxCount
    ensures ssi.Load() == old(ssi.Load()) - 1
    ensures rx != null ==> rx[count..] == old(rx[count..])
  {
    hide Ssi.Valid, Ssi.Sent, Answer;
    rxCount', skip' := rxCount, skip;
    var rxByte := ssi.Read();
    if skip' > 0 {
      skip' := skip' - 1;
    } else {
      if rx != null { rx[count - rxCount'] := rxByte; }
      rxCount' := rxCount' - 1;
    }
  }

  /** The transmit level `tx` read first and the receive level `rx'` later, with hardware steps between: together they
      never miss more than the bytes inside the controller. */
  lemma TransmitLevelFirst(tx: nat, inside: nat, rx: nat, tx': nat, inside': nat, rx': nat)
    requires tx' + inside' + rx' == tx + inside + rx && tx' <= tx && rx' >= rx && inside <= INSIDE && inside' <= INSIDE
    ensures tx + rx' < MAX_IN_FLIGHT ==> tx' + inside' + rx' < DEPTH
  {
    assert tx' + inside' + rx' <= tx + INSIDE + rx';
  }

  /** In the other order a full pipeline can look empty. */
  lemma ReceiveLevelFirst() returns (tx: nat, inside: nat, rx: nat, tx': nat, inside': nat, rx': nat)
    ensures tx' + inside' + rx' == tx + inside + rx && tx' <= tx && rx' >= rx && inside <= INSIDE && inside' <= INSIDE
    ensures rx + tx' < MAX_IN_FLIGHT && tx' + inside' + rx' == DEPTH
  {
    tx, inside, rx, tx', inside', rx' := 14, 2, 0, 0, 0, 16;
  }

  /** One round of the loop. */
  method Round(ssi: Ssi, tx: array?<Byte>, rx: array?<Byte>, ghost base: seq<Byte>, ghost payload: seq<Byte>, count: nat,
               txCountIn: nat, rxCountIn: nat, skipIn: nat, least: nat)
    returns (txCount: nat, rxCount: nat, skip: nat, didSomething: bool)
    requires Pumping(ssi, tx, rx, base, payload, txCountIn, rxCountIn, skipIn) && count == |payload|
    requires txCountIn > 0 || skipIn > 0 || rxCountIn > 0
    modifies ssi, rx
    ensures didSomething <==> txCount + rxCount + skip < txCountIn + rxCountIn + skipIn
    ensures txCount <= txCountIn && rxCount <= rxCountIn && skip <= skipIn
    ensures Pumping(ssi, tx, rx, base, payload, txCount, rxCount, skip)
    ensures rx != null ==> rx[count..] == old(rx[count..])
    ensures 4 * txCount + ssi.Load() <= 4 * txCountIn + old(ssi.Load())
    ensures least > 0 ==> 4 * txCount + ssi.Load() < 4 * txCountIn + old(ssi.Load())
  {
    hide Ssi.Valid, Ssi.Sent, Answered, Answer, Pumping;
    txCount, rxCount, skip := txCountIn, rxCountIn, skipIn;
    PumpingBasics(ssi, tx, rx, base, payload, txCount, rxCount, skip);
    var txLevel, rxLevel := ReadLevels(ssi, tx, rx, base, payload, txCount, rxCount, skip, least);
    RunWhilePumping(ssi, tx, rx, base, payload, txCount, rxCount, skip, 0);
    didSomething := false;
    if txCount > 0 && txLevel + rxLevel < MAX_IN_FLIGHT {
      SendNext(ssi, tx, rx, base, payload, count, txCount, rxCount, skip);
      txCount := txCount - 1;
      didSomething := true;
    }
    RunWhilePumping(ssi, tx, rx, base, payload, txCount, rxCount, skip, 0);
    if rxLevel > 0 {
      rxCount, skip := ReceiveNext(ssi, tx, rx, base, payload, count, txCount, rxCount, skip);
      didSomething := true;
    }
  }

  /** The two level reads, with the hardware running before and between them. */
  method ReadLevels(ssi: Ssi, ghost tx: array?<Byte>, ghost rx: array?<Byte>, ghost base: seq<Byte>,
                    ghost payload: seq<Byte>, ghost txCount: nat, ghost rxCount: nat, ghost skip: nat, least: nat)
    returns (txLevel: nat, rxLevel: nat)
    requires Pumping(ssi, tx, rx, base, payload, txCount, rxCount, skip)
    modifies ssi`tx, ssi`inside, ssi`rx, ssi`wire, ssi`overflowed
    ensures Pumping(ssi, tx, rx, base, payload, txCount, rxCount, skip)
    ensures ssi.InFlight() == old(ssi.InFlight()) && ssi.Load() <= old(ssi.Load()) && |ssi.rx| == rxLevel
    ensures txLevel + rxLevel < MAX_IN_FLIGHT ==> ssi.InFlight() < DEPTH
    ensures old(ssi.InFlight()) == 0 ==> txLevel == rxLevel == 0
    ensures least > 0 && old(ssi.InFlight()) > 0 ==> ssi.Load() < old(ssi.Load()) || rxLevel > 0
  {
    hide Pumping, Ssi.Valid, Ssi.Sent;
    RunWhilePumping(ssi, tx, rx, base, payload, txCount, rxCount, skip, least);
    txLevel := |ssi.tx|;
    ghost var in1, rx1 := |ssi.inside|, |ssi.rx|;
    RunWhilePumping(ssi, tx, rx, base, payload, txCount, rxCount, skip, 0);
    rxLevel := |ssi.rx|;
    TransmitLevelFirst(txLevel, in1, rx1, |ssi.tx|, |ssi.inside|, rxLevel);
  }

  /** The hardware running does not disturb the pump. */
  method RunWhilePumping(ssi: Ssi, ghost tx: array?<Byte>, ghost rx: array?<Byte>, ghost base: seq<Byte>,
                         ghost payload: seq<Byte>, ghost txCount: nat, ghost rxCount: nat, ghost skip: nat, least: nat)
    requires Pumping(ssi, tx, rx, base, payload, txCount, rxCount, skip)
    modifies ssi`tx, ssi`inside, ssi`rx, ssi`wire, ssi`overflowed
    ensures Pumping(ssi, tx, rx, base, payload, txCount, rxCount, skip)
    ensures ssi.InFlight() == old(ssi.InFlight()) <= DEPTH && |ssi.inside| <= INSIDE
    ensures |ssi.tx| <= old(|ssi.tx|) && |ssi.rx| >= old(|ssi.rx|)
    ensures ssi.Load() <= old(ssi.Load())
    ensures least > 0 && old(ssi.tx != [] || ssi.inside != []) ==> ssi.Load() < old(ssi.Load())
  {
    hide Answered, Answer, Ssi.Sent;
    ssi.Run(least);
  }

  lemma PumpingBasics(ssi: Ssi, tx: array?<Byte>, rx: array?<Byte>, base: seq<Byte>, payload: seq<Byte>,
                      txCount: nat, rxCount: nat, skip: nat)
    requires Pumping(ssi, tx, rx, base, payload, txCount, rxCount, skip)
    ensures ssi.Valid() && ssi.InFlight() == skip + rxCount - txCount && |ssi.inside| <= INSIDE && ssi.InFlight() <= DEPTH
  {
  }

  /** flash_put_get: sends `count` bytes and receives as many, after dropping the replies to the `rxSkip` bytes
      already written. The hardware runs at every point of the loop. `stalls` is how many rounds the hardware may
      stand still in all; it is any number. abort(k) is what the k-th question whether the debug host wants to abort is
      answered; it is asked in every round in which no byte moves and in no other, and the loop ends early exactly at the
      first yes. The buffers may be the same one. */
  method PutGet(ssi: Ssi, tx: array?<Byte>, rx: array?<Byte>, count: nat, rxSkip: nat, stalls: nat, abort: nat -> bool)
    returns (aborted: bool, checks: nat, idleRounds: nat)
    requires ssi.Valid() && ssi.InFlight() == rxSkip
    requires (tx != null ==> count <= tx.Length) && (rx != null ==> count <= rx.Length)
    modifies ssi, rx
    ensures ssi.Valid() && ssi.InFlight() <= DEPTH
    ensures old(ssi.Sent()) <= ssi.Sent() <= old(ssi.Sent() + Payload(tx, count))
    ensures aborted ==> checks > 0 && abort(checks - 1)
    ensures forall k :: 0 <= k < (if aborted then checks - 1 else checks) ==> !abort(k)
    ensures checks == idleRounds
    ensures !aborted ==> ssi.InFlight() == 0 && ssi.Sent() == old(ssi.Sent() + Payload(tx, count))
    ensures !aborted ==> Answered(ssi.reply, ssi.Sent(), |old(ssi.Sent())|, rx, count)
    ensures rx != null ==> rx[count..] == old(rx[count..])
  {
    hide Ssi.Valid, Ssi.Sent, Ssi.Load, Answered, Answer;
    var txCount: nat, rxCount: nat, skip: nat, idle: nat := count, count, rxSkip, stalls;
    ghost var payload, base := Payload(tx, count), ssi.Sent();
    StartPumping(ssi, tx, rx, count, rxSkip);
    checks, idleRounds := 0, 0;
    while txCount > 0 || skip > 0 || rxCount > 0
      invariant Pumping(ssi, tx, rx, base, payload, txCount, rxCount, skip)
      invariant rx != null ==> rx[count..] == old(rx[count..])
      invariant (forall k :: 0 <= k < checks ==> !abort(k)) && checks == idleRounds
      decreases 4 * txCount + ssi.Load(), idle
    {
      var least, stall: bool := 1, *;
      if idle > 0 && stall { least, idle := 0, idle - 1; }
      var didSomething, left := false, txCount + rxCount + skip;
      txCount, rxCount, skip, didSomething := Round(ssi, tx, rx, base, payload, count, txCount, rxCount, skip, least);
      if txCount + rxCount + skip == left { idleRounds := idleRounds + 1; }
      if !didSomething {
        var wasAborted := abort(checks);
        checks := checks + 1;
        if wasAborted {
          PumpingBasics(ssi, tx, rx, base, payload, txCount, rxCount, skip);
          return true, checks, idleRounds;
        }
      }
    }
    return false, checks, idleRounds;
  }

  lemma StartPumping(ssi: Ssi, tx: array?<Byte>, rx: array?<Byte>, count: nat, rxSkip: nat)
    requires ssi.Valid() && ssi.InFlight() == rxSkip
    requires (tx != null ==> count <= tx.Length) && (rx != null ==> count <= rx.Length)
    ensures Pumping(ssi, tx, rx, ssi.Sent(), Payload(tx, count), count, count, rxSkip)
  {
    assert ssi.Sent() + [] == ssi.Sent();
  }

  // ---- commands -------------------------------------------------------------------------------------------

  /** The command byte and a 24-bit address, most significant byte first. */
  function CommandBytes(cmd: Byte, addr: Word): seq<Byte>
    requires addr < 0x100_0000
  {
    [cmd, addr / 0x1_0000, addr / 0x100 % 0x100, addr % 0x100]
  }

  /** What is left of the register after the bytes written so far. */
  lemma NextAddressByte(rest: Word)
    ensures Lsr(rest, 0x100_0000) < 0x100 && Lsl(rest, 0x100) == rest % 0x100_0000 * 0x100
  {
    WrapShift(rest % 0x100_0000 * 0x100, rest / 0x100_0000);
    WrapSmall(rest % 0x100_0000 * 0x100);
  }

  lemma CommandRegister(cmd: Byte, addr: Word)
    requires addr < 0x100_0000
    ensures Lsl(cmd, 0x100_0000) == cmd * 0x100_0000
    ensures Or(32, cmd * 0x100_0000, addr) == cmd * 0x100_0000 + addr
  {
    LslSmall(cmd, 0x100_0000);
    assert Pow2(8) == 0x100;
    assert Pow2(24) == 0x100_0000 by { Pow2Add(8, 8); Pow2Add(16, 8); }
    OrFields(32, 24, cmd, addr);
  }

  /** flash_put_cmd_addr */
  method PutCmdAddr(ssi: Ssi, cmd: Byte, addrIn: Word)
    requires ssi.Valid() && ssi.InFlight() <= DEPTH - 4 && addrIn < 0x100_0000
    modifies ssi
    ensures ssi.Valid() && ssi.InFlight() == old(ssi.InFlight()) + 4
    ensures ssi.Sent() == old(ssi.Sent()) + CommandBytes(cmd, addrIn)
  {
    hide Ssi.Valid, Ssi.Sent;
    CommandRegister(cmd, addrIn);
    var addr: Word := Or(32, Lsl(cmd, 0x100_0000), addrIn);
    ghost var sent, bytes := ssi.Sent(), CommandBytes(cmd, addrIn);
    assert sent + bytes[..0] == sent;
    for i := 0 to 4
      invariant ssi.Valid() && ssi.InFlight() == old(ssi.InFlight()) + i
      invariant ssi.Sent() == sent + bytes[..i]
      invariant addr == Left(cmd, addrIn, i)
    {
      NextAddressByte(addr);
      LeftSteps(cmd, addrIn, i);
      ssi.Write(Lsr(addr, 0x100_0000));
      addr := Lsl(addr, 0x100);
      assert bytes[..i + 1] == bytes[..i] + [bytes[i]];
      assert sent + bytes[..i] + [bytes[i]] == sent + (bytes[..i] + [bytes[i]]);
      ssi.Run(0);
    }
    assert bytes[..4] == bytes;
  }

  /** The register after i bytes. */
  function Left(cmd: Byte, addr: Word, i: nat): Word
    requires addr < 0x100_0000 && i <= 4
  {
    match i
    case 0 => cmd * 0x100_0000 + addr
    case 1 => addr * 0x100
    case 2 => addr % 0x1_0000 * 0x1_0000
    case 3 => addr % 0x100 * 0x100_0000
    case _ => 0
  }

  lemma LeftSteps(cmd: Byte, addr: Word, i: nat)
    requires addr < 0x100_0000 && i < 4
    ensures Left(cmd, addr, i) / 0x100_0000 == CommandBytes(cmd, addr)[i]
    ensures Left(cmd, addr, i) % 0x100_0000 * 0x100 == Left(cmd, addr, i + 1)
  {
    var low := addr % 0x1_0000;
    match i
    case 0 => DivModUnique(cmd * 0x100_0000 + addr, 0x100_0000, cmd, addr);
    case 1 => DivModUnique(addr * 0x100, 0x100_0000, addr / 0x1_0000, low * 0x100);
    case 2 =>
      LowBytes(addr);
      DivModUnique(low * 0x1_0000, 0x100_0000, low / 0x100, low % 0x100 * 0x1_0000);
    case 3 => DivModUnique(addr % 0x100 * 0x100_0000, 0x100_0000, addr % 0x100, 0);
  }

  /** A flash device that has got the bytes of `before` up to its last selection: after 0x03 and an address of three bytes,
      the most significant one first, it answers with its memory from that address on, wrapping around at its end. What it
      answers to anything else is open. */
  ghost predicate IsFlash(reply: seq<Byte> -> Byte, before: seq<Byte>, memory: seq<Byte>) {
    && |memory| > 0
    && forall got: seq<Byte> :: |got| >= 5 && got[0] == 0x03 ==>
         reply(before + got) == FlashByte(memory, got[1], got[2], got[3], |got| - 5)
  }

  function FlashByte(memory: seq<Byte>, high: int, middle: int, low: int, n: nat): Byte
    requires |memory| > 0
  {
    memory[((high * 256 + middle) * 256 + low + n) % |memory|]
  }

  /** flash_read_data from a drained controller: unless the debug host aborts it, the buffer holds the device's answers to
      the bytes after command and address, and the controller is drained again; from a flash device, the buffer gets its
      memory at the address. */
  method ReadData(ssi: Ssi, addr: Word, rx: array<Byte>, count: nat, stalls: nat, abort: nat -> bool, ghost memory: seq<Byte>)
    returns (aborted: bool, checks: nat)
    requires ssi.Valid() && ssi.InFlight() == 0 && addr < 0x100_0000 && count <= rx.Length
    modifies ssi, rx
    ensures ssi.Valid() && rx[count..] == old(rx[count..])
    ensures !aborted ==>
      && ssi.InFlight() == 0 && ssi.Sent() == old(ssi.Sent()) + CommandBytes(0x03, addr) + Zeros(count)
      && (forall j :: 0 <= j < count ==> rx[j] == Answer(ssi.reply, ssi.Sent(), |old(ssi.Sent())| + 4 + j))
    ensures !aborted && IsFlash(ssi.reply, old(ssi.Sent()), memory) ==>
      forall j :: 0 <= j < count ==> rx[j] == memory[(addr + j) % |memory|]
    ensures aborted ==> checks > 0 && abort(checks - 1)
    ensures forall k :: 0 <= k < (if aborted then checks - 1 else checks) ==> !abort(k)
  {
    ghost var before := ssi.Sent();
    PutCmdAddr(ssi, 0x03, addr);
    var idle;
    aborted, checks, idle := PutGet(ssi, null, rx, count, 4, stalls, abort);
    if !aborted && IsFlash(ssi.reply, before, memory) {
      forall j | 0 <= j < count ensures rx[j] == memory[(addr + j) % |memory|] {
        AnswerIsMemory(ssi.reply, before, memory, addr, count, j);
      }
    }
  }

  lemma AnswerIsMemory(reply: seq<Byte> -> Byte, before: seq<Byte>, memory: seq<Byte>, addr: Word, count: nat, j: nat)
    requires IsFlash(reply, before, memory) && addr < 0x100_0000 && j < count
    ensures var sent := before + CommandBytes(0x03, addr) + Zeros(count);
      Answer(reply, sent, |before| + 4 + j) == memory[(addr + j) % |memory|]
  {
    var sent := before + CommandBytes(0x03, addr) + Zeros(count);
    var got := CommandBytes(0x03, addr) + Zeros(count)[..j + 1];
    assert sent[..|before| + 4 + j + 1] == before + got;
    var b2: int, b1: int, b0: int := got[1], got[2], got[3];
    LowBytes(addr);
    assert (b2 * 256 + b1) * 256 + b0 == addr;
    assert reply(before + got) == FlashByte(memory, got[1], got[2], got[3], |got| - 5);
  }

  function Zeros(count: nat): seq<Byte> { seq(count, i => 0) }
}
