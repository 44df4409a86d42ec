# A verified model of the RP2040 boot ROM's hard parts

The boot ROM offers a USB device with two functions: PICOBOOT, which reads and writes memory and flash, and a mass
storage device whose FAT16 volume is made up sector by sector. It also carries floating point routines in integer
assembly, a text decoder for strings compressed at build time, a checksum, and the driver of the SPI flash. This
project models those parts in Dafny and proves what they promise.

| part | files |
|---|---|
| USB packet engine, stream client, PICOBOOT tasks | `StreamSpec`, `EngineSpec`, `EngineState`, `UsbEndpoint`, `UsbRuns`, `Picoboot` |
| floating point | `Bits`, `Rounding`, `Single`, `FloatDiv`, `FloatAdd`, `FloatMul`, `DoubleMul` |
| bulk-only mass storage | `MscSpec`, `MassStorage` |
| text compressor and its decoders | `TextFormat`, `Generator`, `DeviceDecoder` |
| checksum | `Crc` |
| SPI FIFO pump | `SpiPump` |
| FAT16 volume and hex dump | `HexDump`, `VirtualDisk` |

`dafny verify dfyconfig.toml` checks everything.

## How it is modelled

**USB.** `UsbEndpoint.Endpoint` is an endpoint with the transfer that runs on it; its fields are the C fields, and its
methods are the C functions, mutually recursive as they are in C. A recursive call is allowed by the measure
(queued packet, owned buffers), although handling a queued packet raises the owned count again. `EngineState.State` is
the same state as a value. `Core` is the invariant of counters, buffer ownership, registers and packet memory; its
`Phase` argument says how far the C code is between two points where nothing is in progress. Each elementary step is a
function on values with a lemma about what it keeps, and each method is proved to take exactly those steps. What
the C code asserts in these functions about the endpoint, its transfer, the FULL and AVAIL bits and the stream is proved,
but for one assertion, for which the model says exactly when it holds (see below). The hardware has a
buffer selector of its own: it looks only at the selected buffer, takes it if it is AVAIL, and FULL for IN or empty for
OUT, and goes on to the other one after every packet; only the SEL bit of a give sets the selector, and after an abort it
is any. It sets FULL when a packet has come in and clears it when one has gone out, and the host accepts only the data
PID it expects. The methods of `UsbRuns` and `Picoboot` then run an endpoint
that is idle in whatever state earlier transfers have left it: in every round any enabled event may come next (the
hardware moves a packet, the worker takes or finishes a task, a task fails, the endpoint is reset),
also after a transfer was given up. A PICOBOOT read task copies memory at its address into the chunk buffer, and
a write task copies the chunk buffer there.

**Floating point.** A register is an integer below 2^32 and every instruction that can wrap around does so. The
specification is round to nearest, ties to even (section 4.3.1 of IEEE 754-2008), stated without any reference to
bits: a magnitude word is the result if no other word's value is closer to the exact result, and a tie goes to the even
word. `Rounding` proves that this determines the word. Values are integers in units of the smallest denormal, so sums,
products and quotients are exact integers or ratios of them; the exact result is never rounded on the way. The hardware
divider is floor division. `FlushedNearest` is the rounded result with a denormal result replaced by zero.

**Mass storage.** `MassStorage.Device` holds the driver's state, the two bulk pipes with their stalls, and what the host
and the disk see: bytes, stalls the host has to clear, status wrappers, and the sectors the disk is asked for. The host is
any host that waits for the status of a command; it chooses the order of data packets and of clearing stalls. What it gets
is stated twice: as the code plans it, and in `MscSpec.AsAsked` over the bytes of the command.

**Text.** `TextFormat.Expand` is the meaning of compressed data, `TextFormat.Greedy` what a greedy encoding is. The
compressor, the C decoder and the assembly decoder are each proved against them. The assembly decoder works on an
array that is the whole 32-bit address space.

**Flash pump.** The serial controller is a second party that moves bytes through its FIFOs between any two accesses of
the loop; the device is any function of the bytes it has got, or a flash that answers reads with its memory. What the
debug host answers when asked whether to abort is any function of how often it was asked.

**Volume.** A host that knows only the format checks the partition table, the boot sector and the FAT against each other,
looks a file up in the root directory, and follows its links.

## What came out

- **Division is wrong for 127 pairs of exponents.** When the dividend's significand is all ones, the divisor is a power
  of two, and the dividend's exponent is 127 below the divisor's, the exact quotient is halfway between the largest
  denormal and the smallest normal number. The standard gives the smallest normal number, `mufp_fdiv` gives zero: its
  trap looks for a significand of 2^24, and this one needs no rounding. For all other normal operands the quotient is
  right. Multiplication and addition are right for all finite operands.
- **Streams near 4 GB.** The length rounded up to packets wraps to zero exactly for the 63 largest lengths, and no packet
  is then transferred in either direction. An IN stream asks its client for a chunk of the wrong length exactly when a
  whole chunk from there on would end at 2^32 or beyond. These two limits are all there is: `EngineSpec.TransferExact`.
- **Chunks of one packet.** A double-buffered IN endpoint needs chunks of at least two packets: with 64-byte chunks and
  more than one packet, the loop that gives buffers can call on_packet while a packet is outstanding, if the client fills
  the first chunk at once and defers the second. In every other case 64-byte chunks work: `EngineState.ChunkFloorExact`.
- **A completion after a halt.** If a PICOBOOT task fails while the hardware still holds the other buffer, that buffer's
  completion finds the endpoint halted and without a transfer, and the assertion at usb_device_tiny/usb_device.c:554
  fails in a build with assertions. The other buffer is there exactly if the endpoint is double-buffered, no packet is
  queued, and the task is not for the first page of a read or the last page of a write; `Picoboot.LateCompletion` is a
  run that shows it. Without assertions nothing else goes wrong: no task is queued, the bus carries a prefix of the
  stream, and the data PID stays right.
- **Partial sectors.** The assertion at usb_device_tiny/usb_msc.c:218, that a chunk passed to the disk is a whole sector,
  fails if the host asks for fewer bytes than the blocks of the command, and what it asks for beyond the last whole
  sector fills at least one packet: a read of one block with a transfer length of 100 passes a chunk of 64 bytes. It
  holds in all other cases: `MscSpec.WholeSectorsExact`.
- **A checksum across 2^31.** `crc32_small` compares addresses as signed numbers. It takes all bytes of a buffer exactly
  unless the buffer starts below address 2^31 and ends at or above it; then it takes none.
- **4096 bytes do not compress.** `decompress` reports a full buffer as zero bytes, so `compress` fails for a text of
  exactly 4096 bytes; it succeeds exactly for shorter texts of bytes below 0x80.
- **Empty data commands.** A SCSI command that could move data but has none to move (an inquiry for zero bytes, a read
  of zero blocks) ends in a phase error when the direction bit is the other one. The transport ignores that bit when
  the host expects no data. In every other case the device does what section 6.7 asks for.
- **Reset clears stalls.** The comment at usb_device_tiny/usb_msc.c:490 says that the mass storage reset does not
  unstall; the soft reset of both endpoints that follows does. The model follows the code.
- **No signature in the boot sector.** Only the partition table has the bytes 0x55, 0xaa at its end; the boot sector of the
  volume, which the FAT format wants to end in them too, has zeros there.
- **The chain of the dump has no end.** The end mark is never written, and the FAT entry after the file's last cluster
  points on to a free cluster. Reading by the length in the directory is unaffected.

## Model

| member | source | states |
|---|---|---|
| UsbRuns.RunTransfer | usb_device_tiny/usb_device.c:413-614 | on any idle endpoint, whatever buffer and data PID come next, and for any length, buffering and interleaving of interrupts with a client that finishes chunks at once or later: the bus carries exactly the sender's bytes, the chunks concatenate to them (zero beyond the end of a partial OUT chunk), on_packet runs once per packet, completion is signalled once, within twice as many events as packets, and the endpoint is idle again |
| UsbRuns.RunTransfers | usb_device_tiny/usb_device.c:516-638 | transfers one after the other on an endpoint: each arrives whole, and the next data PID is the parity of all their packets |
| UsbRuns.RunWithResets | usb_device_tiny/usb_device.c:133-167 | over any run of transfers, failed tasks, late completions, soft and hard resets: every transfer that finishes has arrived whole, whatever was broken off before it; the data PID after a reset is the parity of the packets completed since the last hard reset; the assertion that the endpoint is not halted at a completion fails only for a completion after a task failed beside a buffer at the hardware; no transfer is ever stuck, whichever buffer the hardware has selected before a reset |
| UsbRuns.SomethingAtHardware | usb_device_tiny/usb_device.c:496-614 | a running transfer that defers no packet has one that the hardware can move, in the buffer it has selected: it cannot get stuck |
| UsbRuns.RemainingBounds | usb_device_tiny/usb_device.c:516-614 | the packets still to complete and to finish are never negative, so every run ends |
| Picoboot.Transfer | bootrom/usb_boot_device.c:206-279 | on any idle endpoint, a PICOBOOT read or write of L bytes at A: tasks at A, A+256, ... with lengths summing to L, each once and in order; success acknowledges once and leaves memory with the bytes written, or the bus with the bytes read from memory; after the first failing task nothing is queued, run or acknowledged whatever completes late, and the bus carries at most what the finished tasks have read; the completion assertion fails only late, after a task that is not the first of a read or the last of a write |
| Picoboot.RunCommands | bootrom/usb_boot_device.c:206-374 | any sequence of reads and writes on PICOBOOT's two endpoints, with failures and resets between: every read gets what is in memory at its turn, and memory is what the writes, or their finished pages, have made of it |
| Picoboot.RunCommand | bootrom/usb_boot_device.c:206-374 | one command: the right reply, the right memory, and an idle endpoint after the reset that follows a failure |
| Picoboot.ReadsBack | bootrom/usb_boot_device.c:206-279 | what a command wrote, a later read of the range gets, if no command between wrote there |
| Picoboot.LateCompletion | usb_device_tiny/usb_device.c:545-560 | a write of five packets on any idle double-buffered endpoint whose first task fails when four have arrived: the fifth makes the completion assertion fail |
| Picoboot.OtherBesideTask | bootrom/usb_boot_device.c:256-268 | the other buffer is at the hardware while a task runs if and only if there are two, no packet is queued, and the task is not the first of a read, or the last of a write |
| Picoboot.FinishTask | bootrom/usb_boot_device.c:256-268 | a finished task lets the transfer go on with the next packet, and one more task is done |
| Picoboot.ExecuteTask | bootrom/async_task.c:167-208 | a write extends the bytes in memory by the next chunk of the host's stream; what a read copies from memory is the stream's next chunk |
| Picoboot.TransferEvent | bootrom/async_task.c:254-271 | every event of a transfer keeps what is known of its tasks and memory, and brings the end closer |
| Picoboot.RunOn | usb_device_tiny/usb_device.c:545-560 | after a failed task the worker finds nothing to do, and a late completion changes only what the bus has carried |
| Picoboot.TakeTask | bootrom/async_task.c:254-271 | the task the worker takes out of the mailbox is the next in order |
| Picoboot.PendingTask | bootrom/usb_boot_device.c:270-279 | while a chunk is pending exactly one task exists, in the mailbox or with the worker, and the chunk buffer holds its data |
| Picoboot.FinishedFromAddress | bootrom/usb_boot_device.c:256-267 | the address kept between tasks determines how many tasks are finished |
| UsbEndpoint.Endpoint.GiveBuffer | usb_device_tiny/usb_device.c:413-461 | only an owned buffer the hardware does not hold is given, FULL for IN only, with its data PID, and with SEL if it is the first after a reset; counters and give index move on |
| EngineState.GiveKeepsBus | usb_device_tiny/usb_device.c:420-431 | what is written to the control register is what the hardware and the host expect of the packet |
| EngineState.HardwareReports | usb_device_tiny/usb_device.c:413-461 | the hardware can move a packet exactly when it holds one, and then it has selected the buffer of the next packet, whatever resets came before |
| EngineState.HeldIsMarked | usb_device_tiny/usb_device.c:420-431 | every packet at the hardware is in an available buffer, full for IN and empty for OUT, with its own data PID |
| UsbEndpoint.Endpoint.GiveAsManyBuffersAsPossible | usb_device_tiny/usb_device.c:496-514 | afterwards no buffer is owned that could be given, unless an IN packet waits for its chunk |
| UsbEndpoint.Endpoint.CallOnPacket | usb_device_tiny/usb_device.c:464-470 | on_packet is never called while a packet is outstanding |
| UsbEndpoint.Endpoint.CheckForTransferCompletion | usb_device_tiny/usb_device.c:516-543 | a transfer completes exactly when all packets are handled and none is outstanding, and then everything has been delivered; a halted one is given up without signalling |
| UsbEndpoint.Endpoint.HandleTransfer | usb_device_tiny/usb_device.c:545-580 | a completed packet is taken, or deferred behind the outstanding one in the other buffer; without a transfer its buffer is owned again and the endpoint halted |
| UsbEndpoint.Endpoint.PacketDone | usb_device_tiny/usb_device.c:582-614 | the outstanding packet is finished, an IN packet given, a deferred packet taken up or the buffers topped up |
| UsbEndpoint.Endpoint.TakeUpQueuedPacket | usb_device_tiny/usb_device.c:600-607 | the deferred packet is the next one, in the buffer not taken last; the recursion ends although the owned count is raised again |
| UsbEndpoint.Endpoint.StartTransfer | usb_device_tiny/usb_device.c:621-638 | a new transfer starts with nothing moved and all invariants in place |
| UsbEndpoint.Endpoint.ResetBuffers | usb_device_tiny/usb_device.c:133-167 | all buffers are owned again, and the next give selects; aborting exactly one takes its data PID back |
| UsbEndpoint.Endpoint.ResetEndpoint | usb_device_tiny/usb_device.c:321-348 | a reset endpoint is idle with the data PID of the packets really completed, ready for a hardware that has selected either buffer |
| UsbEndpoint.Endpoint.HardwareCompletes | usb_device_tiny/usb_device.c:545-580 | the buffer the hardware has selected is the one the next packet is in; a packet deferred while another is outstanding leaves the client alone; the assertion that the endpoint is not halted holds exactly while a transfer runs |
| UsbEndpoint.Endpoint.StreamPacketHandler | usb_device_tiny/usb_stream_helper.c:52-110 | a chunk is asked for or handed over exactly at its boundary |
| UsbEndpoint.Endpoint.CollectOutPacket | usb_device_tiny/usb_stream_helper.c:69-108 | an OUT packet lands at its place in the chunk, and a completed chunk is handed over with its length |
| UsbEndpoint.Endpoint.RequestInChunk | usb_device_tiny/usb_stream_helper.c:60-108 | an IN packet at the start of a chunk asks for the next chunk |
| UsbEndpoint.Endpoint.AdvancePacket | usb_device_tiny/usb_stream_helper.c:14-38 | an IN packet carries its 64 bytes of the stream (fewer at the end), and the offset moves on by the packet |
| UsbEndpoint.Endpoint.ChunkDone | usb_device_tiny/usb_stream_helper.c:48-50 | a chunk finished later leaves the transfer running or finished, with the invariant kept and its packet counted |
| UsbEndpoint.Endpoint.ChunkFailed | bootrom/usb_boot_device.c:256-268 | after a failed task the endpoint is halted and the transfer given up; no task is queued |
| UsbEndpoint.Endpoint.WorkerTakesTask | bootrom/async_task.c:254-271 | the mailbox is emptied and the task is the one queued |
| UsbEndpoint.Endpoint.OnChunk | bootrom/usb_boot_device.c:270-279 | a task is queued only in an empty mailbox |
| EngineSpec.OwnershipGive | usb_device_tiny/usb_device.c:413-461 | the buffer about to be given is not at the hardware, and afterwards the hardware holds exactly the packets given and not completed |
| EngineSpec.OwnershipDone | usb_device_tiny/usb_device.c:545-559 | completing the oldest packet frees exactly its buffer |
| EngineSpec.OldestHeldIsNext | usb_device_tiny/usb_device.c:545-559 | the registers alone tell which held buffer is the oldest |
| EngineSpec.OutStep | usb_device_tiny/usb_stream_helper.c:69-108 | copying a packet keeps the chunk equal to the host's bytes padded with zeros, and hands over a chunk exactly at its end |
| EngineSpec.InAdvance | usb_device_tiny/usb_stream_helper.c:22-38 | the bytes taken out of a filled chunk are the packet's bytes of the stream |
| EngineSpec.ChunksFlatten | usb_device_tiny/usb_stream_helper.c:52-110 | chunks seen in order concatenate to the stream |
| EngineSpec.ChunkRequestExact | usb_device_tiny/usb_stream_helper.c:63-64 | an IN chunk request has the right length if and only if the end of a whole chunk is below 2^32 |
| EngineSpec.PacketCountExact | usb_device_tiny/usb_stream_helper.c:127 | the packet count is right if and only if the length plus 63 fits 32 bits, and zero otherwise |
| EngineSpec.TransferExact | usb_device_tiny/usb_stream_helper.c:60-127 | the limit on the length under which a transfer is proved right is exactly what the packet count and, for IN, all chunk requests need |
| EngineState.Progress | usb_device_tiny/usb_device.c:496-614 | an unhalted running transfer always has a packet outstanding or at the hardware |
| EngineState.GiveKeeps | usb_device_tiny/usb_device.c:413-461 | giving a buffer keeps the invariant of the transfer |
| EngineState.DoneKeeps | usb_device_tiny/usb_device.c:582-589 | finishing a packet keeps the invariant |
| EngineState.HardwareKeeps | usb_device_tiny/usb_device.c:545-556 | a completion keeps the invariant; while a packet is outstanding the endpoint is double-buffered and nothing is deferred yet |
| EngineState.UnqueueKeeps | usb_device_tiny/usb_device.c:600-607 | the deferred packet is in the other buffer and is the next one |
| EngineState.QueueLeavesOther | usb_device_tiny/usb_device.c:562-567 | a deferred packet never is in the buffer still being read |
| EngineState.HeldPacket | usb_device_tiny/usb_device.c:496-514 | beside a deferred packet the hardware holds at most the next packet of the stream, never the buffer to be given |
| EngineState.HaltAborts | bootrom/usb_boot_device.c:256-268 | a halt while a chunk is pending leaves at most one buffer at the hardware, with the next packet of the stream, and no task |
| EngineState.LateKeeps | usb_device_tiny/usb_device.c:545-560 | a completion after the transfer was given up keeps the data PID right and the bus at a prefix of the stream |
| EngineState.LateCompletionExact | usb_device_tiny/usb_device.c:545-560 | after a task fails a buffer is left at the hardware, whose completion fails the assertion, if and only if the endpoint is double-buffered, no packet is queued, and the offset is past the start of an IN transfer, or before the last packet of an OUT transfer |
| EngineState.OtherAtHardwareExact | usb_device_tiny/usb_device.c:496-614 | beside a deferred packet the hardware holds a buffer if and only if that condition holds: every buffer that can be given has been |
| EngineState.LastOfItsChunk | usb_device_tiny/usb_device.c:600-611 | an OUT packet that completes a chunk is deferred with every other buffer given, although taking up a queued packet does not top up |
| EngineState.ChunkFloorExact | usb_device_tiny/usb_device.c:496-514 | on_packet can be called while a packet is outstanding at the start of an IN transfer if and only if there are two buffers, several packets and chunks of one packet |
| EngineState.OutstandingIsRightlyFull | usb_device_tiny/usb_device.c:392-411 | the FULL bit is set for the OUT packet about to be read and clear for the IN buffer about to be filled |
| EngineState.ResetKeepsPid | usb_device_tiny/usb_device.c:133-167 | after a reset the data PID is the parity of the packets completed, however many buffers were aborted |
| EngineState.CompleteFinishes | usb_device_tiny/usb_device.c:516-538 | when a transfer completes, the wire, the chunks, the counters and the tasks are all complete |
| FloatDiv.Fdiv | bootrom/mufplib.S:1037-1205 | for normal operands the result is the correctly rounded quotient (denormal results flushed) if and only if the quotient is not halfway below the smallest normal number; zeros, denormals, infinities and NaNs as the routine treats them |
| FloatDiv.HalfwayRoundsToNormal | bootrom/mufplib.S:1190-1201 | at the excepted operands the standard asks for the smallest normal number |
| FloatDiv.EstimateError | bootrom/mufplib.S:1046-1126 | the Q28 estimate is within (-1, 3) units of the quotient and its correction fits 32 bits |
| FloatDiv.NoTie | bootrom/mufplib.S:1135-1163 | no quotient of two significands is a tie |
| FloatDiv.RoundEstimateBelowOne | bootrom/mufplib.S:1139-1146 | with a bias of 5 the estimate decides the rounding unless bit 3 is set, and then the sign of the exact remainder does |
| FloatDiv.RoundEstimateAboveOne | bootrom/mufplib.S:1153-1163 | the same with a bias of 9 and one bit more |
| FloatDiv.RoundBelowOne | bootrom/mufplib.S:1139-1163 | the register holds the rounded quotient below one |
| FloatDiv.RoundAtLeastOne | bootrom/mufplib.S:1152-1163 | the register holds the rounded quotient of one or more |
| FloatDiv.PackQuotient | bootrom/mufplib.S:1170-1205 | packing, overflow, underflow and the trap for the smallest normal number |
| FloatAdd.Fadd | bootrom/mufplib.S:744-887 | for all finite operands the correctly rounded sum with its sign; exact cancellation gives +0; infinities and NaNs give an infinity |
| FloatAdd.Fsub | bootrom/mufplib.S:738-741 | for all finite operands the correctly rounded difference with its sign, a zero difference included; infinities and NaNs give an infinity with its sign |
| FloatAdd.Align | bootrom/mufplib.S:770-803 | the register pair holds the exact sum, or the larger operand alone when the exponents are 30 or more apart |
| FloatAdd.ShiftDown | bootrom/mufplib.S:776-781 | the bits shifted off the bottom are all kept |
| FloatAdd.NegligibleOperand | bootrom/mufplib.S:774-775 | an operand 30 binades below the other does not change the rounded sum |
| FloatAdd.Normalise | bootrom/mufplib.S:815-822 | normalising keeps the value |
| FloatAdd.RoundAndPack | bootrom/mufplib.S:805-862 | magnitude, sign and rounding of the pair |
| FloatAdd.DeliverSum | bootrom/mufplib.S:825-862 | the packed word of the exact sum is the rounded one, also at underflow, because a sum is never within half a unit below the smallest normal number |
| FloatAdd.PackedResult | bootrom/mufplib.S:744-862 | the packed word and sign are right for every pair of operands |
| FloatMul.Fmul | bootrom/mufplib.S:892-1028 | for all finite operands the correctly rounded product, denormal results flushed; infinities and NaNs give an infinity |
| FloatMul.TruncatedProduct | bootrom/mufplib.S:920-928 | the truncated 16 by 16 bit product is at most one too low in its top bits, and the low word tells |
| FloatMul.FractionProduct | bootrom/mufplib.S:918-934 | the registers hold the exact 46-bit product |
| FloatMul.PackSmall | bootrom/mufplib.S:940-957 | rounding and packing of a product below two |
| FloatMul.PackLarge | bootrom/mufplib.S:960-980 | rounding and packing of a product of at least two |
| DoubleMul.Dmul | bootrom/mufplib-double.S:481-571 | for all finite operands the correctly rounded product, denormal results flushed; infinities and NaNs give an infinity |
| DoubleMul.Mul32 | bootrom/mufplib-double.S:366-389 | the exact 64-bit product of two words |
| DoubleMul.Product | bootrom/mufplib-double.S:491-508 | four partial products with their carries give the exact 106-bit product |
| DoubleMul.Unpack | bootrom/mufplib-double.S:114-133 | significand with implied one, exponent and sign; zeros, denormals, infinities and NaNs get extreme exponents |
| DoubleMul.Reduce | bootrom/mufplib-double.S:512-527 | the shifted registers hold quotient, rounding bit and sticky bits of the product |
| DoubleMul.Round | bootrom/mufplib-double.S:531-540 | the significand is rounded to nearest, ties to even |
| DoubleMul.DeliverProduct | bootrom/mufplib-double.S:529-571 | the packed word of normal operands is the rounded product |
| DoubleMul.PackedResult | bootrom/mufplib-double.S:481-571 | the packed word is right for every pair of operands |
| Rounding.NearestUnique | bootrom/mufplib.S:743-1205 | rounding to nearest, ties to even, determines the result |
| Rounding.Deliver | bootrom/mufplib.S:743-1205 | a significand rounded to an integer and packed with its exponent is the rounded result, through overflow and underflow |
| MassStorage.RunCommand | usb_device_tiny/usb_msc.c:91-468 | any accepted command leads to exactly one status with its tag, the residue is the length asked for minus the bytes moved, and the device waits for the next command; the bytes moved, the stall the host had to clear and the status meet the thirteen cases of section 6.7 if and only if the command is not a data command without data in the wrong direction; bytes, stall, status, sectors asked of the disk, sense data and ejection are those of the command's own bytes |
| MassStorage.RunSession | usb_device_tiny/usb_msc.c:91-468 | in a session every command gets its status, bytes, stall and sectors, in order |
| MassStorage.HostStep | usb_device_tiny/usb_msc.c:106-281 | whatever the host does next, the command comes closer to its status |
| MassStorage.Device.CommandPacket | usb_device_tiny/usb_msc.c:397-468 | exactly the valid and meaningful wrappers are accepted and follow their plan; any other stalls both pipes until a reset; sense data |
| MassStorage.Device.DataPhaseComplete | usb_device_tiny/usb_msc.c:106-121 | after the data the planned pipe is stalled; the status is sent, or waits for the IN stall to be cleared |
| MassStorage.Device.InitForDiOrDo | usb_device_tiny/usb_msc.c:146-171 | the data phase is the smaller of what host and device expect, with the stall and status for the difference |
| MassStorage.Device.StandardResponse | usb_device_tiny/usb_msc.c:180-189 | the response is cut to what the host asks for |
| MassStorage.Device.ReadOrWriteBlocks | usb_device_tiny/usb_msc.c:253-281 | whole packets of the data phase are moved |
| MassStorage.Device.SendData | usb_device_tiny/usb_msc.c:180-213 | the residue never underflows while an IN stream runs ahead of the bus |
| MassStorage.Device.ReceiveData | usb_device_tiny/usb_msc.c:210-213 | every OUT packet comes off the residue |
| MassStorage.Device.StreamPacket | usb_device_tiny/usb_msc.c:208-224 | the disk is asked for the next sector at the first packet of a sector read, and at the last one of a sector written |
| MassStorage.Device.SendStatus | usb_device_tiny/usb_msc.c:75-96 | the status has the tag and the residue, and the OUT pipe waits for a command again |
| MassStorage.Device.ClearHaltIn | usb_device_tiny/usb_msc.c:357-366 | clearing the IN stall sends the waiting status |
| MassStorage.Device.MassStorageReset | usb_device_tiny/usb_msc.c:368-385 | the reset makes the device ready from any state |
| MscSpec.PlanCompliant | usb_device_tiny/usb_msc.c:137-171 | what the code plans for a command meets the thirteen cases if and only if the command is not a data command without data in the wrong direction |
| MscSpec.PlanIsAsAsked | usb_device_tiny/usb_msc.c:137-346 | the plan over the bytes of the command: READ(10) and WRITE(10) move the blocks of bytes 7 and 8 from the sector of bytes 2 to 5 their own way, five responses move their length or what is asked for, others move nothing; only the known ones pass |
| MscSpec.EmptyInquiryFails | usb_device_tiny/usb_msc.c:146-153 | a command that shows the exception |
| MscSpec.WholeSectorsExact | usb_device_tiny/usb_msc.c:214-223 | every chunk that a read or write of blocks passes to the disk is a whole sector if and only if the host asks for all blocks, or for less than a packet beyond the last whole sector |
| MscSpec.SectorChunkAt | usb_device_tiny/usb_stream_helper.c:60-108 | which packets of a sector stream pass a chunk to the disk |
| MscSpec.PartialSectorRead | usb_device_tiny/usb_msc.c:253-281 | an accepted read of one block that passes a chunk of 64 bytes to the disk |
| Generator.Compress | generator/main.c:34-80 | succeeds exactly for texts of bytes below 0x80 shorter than the buffer; the output is the greedy encoding, no longer than the text, expands to it, and its length is the final cost; it misses no repetition of three bytes within the last 255, but for the literal that follows a match |
| Generator.Encode | generator/main.c:45-64 | the main loop emits the greedy encoding |
| Generator.FindMatch | generator/main.c:47-60 | the longest match of at most 127 bytes within 255 bytes, furthest back first |
| Generator.Decompress | generator/main.c:82-98 | writes what the data stands for and reports a full buffer as zero |
| TextFormat.GreedyExpands | generator/main.c:45-98 | every greedy encoding expands to its text, overlapping matches included |
| TextFormat.GreedyUnique | generator/main.c:45-64 | a text has one greedy encoding |
| TextFormat.GreedyMissesNothing | generator/main.c:45-64 | a literal is emitted only where no three bytes repeat, unless it follows a match, and a match below 127 bytes is as long as any repetition there |
| TextFormat.LiteralAfterMatch | generator/main.c:45-64 | a text whose greedy encoding emits a literal after a match although three bytes repeat there |
| TextFormat.CopyReproduces | generator/main.c:91-93 | copying back reproduces a repetition that overlaps itself |
| TextFormat.ExpandAppend | generator/main.c:82-98 | data can be decoded piece by piece |
| DeviceDecoder.Decompress | bootrom/bootrom_misc.S:58-88 | on complete tokens with references in range, writes exactly what the data stands for and nothing else |
| DeviceDecoder.CopyToken | bootrom/bootrom_misc.S:70-82 | the carry is clear at the subtraction that computes the end of a copy |
| DeviceDecoder.BuildAndDecode | generator/main.c:34-80 | a text compressed at build time is decoded on the device to itself |
| Crc.Crc32Small | bootrom/bootrom_misc.S:20-52 | the routine computes the checksum, defined bit by bit, of the bytes its signed end test takes |
| Crc.TakenExact | bootrom/bootrom_misc.S:46-49 | all bytes of a buffer are taken if and only if it does not reach across address 2^31 |
| Crc.FoldIsFeed | bootrom/bootrom_misc.S:25-43 | folding only the top byte is eight steps of the division |
| Crc.ChecksumIsRemainder | bootrom/bootrom_misc.S:14-52 | for every seed the checksum of n bytes is the remainder of long division of the message followed by 32 zero bits plus the seed followed by 8n zero bits |
| Crc.ChecksumOfOne | bootrom/bootrom_misc.S:14-43 | the byte 1 with seed zero has the checksum 0x04c11db7, the polynomial of IEEE 802.3 |
| Crc.FeedDivides | bootrom/bootrom_misc.S:14-52 | feeding message bits at the top of the register is long division 32 bits ahead, for any start |
| Crc.ChecksumAppend | bootrom/bootrom_misc.S:14-52 | crc(a + b, s) = crc(b, crc(a, s)) |
| Crc.ChecksumOfChecksum | bootrom/bootrom_misc.S:14-52 | a message followed by the four bytes of its checksum, most significant first, has checksum zero, for every seed |
| SpiPump.PutGet | bootrom/program_flash_generic.c:114-147 | for every behaviour of the hardware: never more than 16 bytes in flight, no FIFO overflow; the debug host is asked in exactly the rounds in which no byte moves, and the pump gives up exactly at its first yes; without one every byte is sent, every reply stored in order, the controller drained; also when both buffers are the same |
| SpiPump.Round | bootrom/program_flash_generic.c:121-145 | one round keeps in-flight = skip + receive count - send count, and makes progress if the hardware does |
| SpiPump.TransmitLevelFirst | bootrom/program_flash_generic.c:122-125 | reading the transmit level first cannot underestimate what is in flight by more than the controller holds inside |
| SpiPump.ReceiveLevelFirst | bootrom/program_flash_generic.c:122-125 | in the other order a full pipeline can look empty |
| SpiPump.PutCmdAddr | bootrom/program_flash_generic.c:160-167 | command and 24-bit address, most significant byte first |
| SpiPump.ReadData | bootrom/program_flash_generic.c:349-353 | unless the debug host aborts, the buffer holds the device's answers after command and address, and from a flash its memory at the address |
| SpiPump.AnswerIsMemory | bootrom/program_flash_generic.c:349-353 | command 0x03 and the address, most significant byte first, make a flash answer with its memory from there on |
| VirtualDisk.ReadCrashDump | bootrom/virtual_disk.c:336-457 | a host that reads CRASHDMP.XXD gets the hex dump of all of SRAM |
| VirtualDisk.ReadFile | bootrom/virtual_disk.c:336-457 | a host that knows only the FAT16 format finds exactly the three files by name, and reads each along either FAT copy: INDEX.HTM and INFO_UF2.TXT end with an end mark, the dump has its length but no end mark |
| VirtualDisk.Mount | bootrom/virtual_disk.c:83-134 | signature, partition, geometry, sizes, serial number and the first FAT entries agree with each other, and the number of clusters makes it a FAT16 volume |
| VirtualDisk.FindFile | bootrom/virtual_disk.c:408-422 | a lookup in the root directory finds the three files with first cluster and length, and nothing else |
| VirtualDisk.BootHasNoSignature | bootrom/virtual_disk.c:374-378 | bytes 510 and 511 of the volume's boot sector are zero |
| VirtualDisk.RecoverMemory | bootrom/virtual_disk.c:286-321 | parsing the hexadecimal columns of the file gives back memory; every line shows the last five digits of its address and its bytes as characters |
| VirtualDisk.ReadBlock | bootrom/virtual_disk.c:336-457 | every sector is the one the volume has at that address |
| VirtualDisk.FatSector | bootrom/virtual_disk.c:380-405 | the entries of a FAT sector; the end mark is never written |
| VirtualDisk.FatLink | bootrom/virtual_disk.c:378-401 | both FAT copies hold the entry of every cluster |
| VirtualDisk.ChainHasNoEnd | bootrom/virtual_disk.c:42-43 | the cluster after the last one is linked to a free one |
| VirtualDisk.InitDirEntry | bootrom/virtual_disk.c:324-334 | a directory entry field by field |
| HexDump.Xxd | bootrom/virtual_disk.c:296-321 | a sector holds the eight lines of its 128 bytes |
| HexDump.PutHex | bootrom/virtual_disk.c:273-284 | the last digits of a word |
| HexDump.DumpLine | bootrom/virtual_disk.c:286-295 | characters 64k to 64k+63 are the line of bytes 16k to 16k+15 |
| HexDump.DumpRoundTrip | bootrom/virtual_disk.c:286-321 | reading the hexadecimal columns back gives the bytes |
| HexDump.DumpShows | bootrom/virtual_disk.c:286-321 | address, separators and printable column of every line |
| HexDump.DigitCharacters | bootrom/virtual_disk.c:273-284 | the digits are 0 to 9 and a to f |

## Left out

- The chunk buffer and the packet memory of an endpoint are sequences that the methods reassign, not arrays: aliasing
  between them is not modelled.
- A hardware completion and its interrupt handler are one event, as is a chunk completion with the callback it runs;
  both run with interrupts disabled.
- UsbRuns.RunTransfer: no transfer beyond the limits that EngineSpec.TransferExact and EngineState.ChunkFloorExact show to
  be exact; what such a transfer does after its first wrong number or call is not followed.
- EngineState.LateCompletionExact: for chunks of at least two packets, as PICOBOOT has; with OUT chunks of one packet a
  packet can be deferred before the other buffer is given.
- Picoboot.RunCommands: the command packets and the empty acknowledgement packets between the data transfers are not run;
  each data transfer starts from any idle state, so also from those they leave.
- Picoboot.Transfer: the same limits, and no command of length zero, which moves no data. A task succeeds as one on RAM
  does: programming and reading flash pages is not part of this model, and which tasks fail (a bad address, a bad
  alignment, a flash error) is open, so any task may.
- UsbEndpoint.Endpoint.CheckForTransferCompletion: does not start a chained transfer, because stream transfers signal
  their completion instead and never have one.
- UsbEndpoint.Endpoint.ResetEndpoint: leaves out the stall-change callback and the restart of a default transfer; the mass
  storage model has both for its own pipes.
- UsbEndpoint.Endpoint.ChunkDone: its contract does not compare the state with the one an immediate completion reaches,
  because the packet is handled at another moment; what both promise for the whole transfer is the same.
- Generator.Compress: no texts longer than the buffers, beyond which the C code would write; its callers read into a
  buffer of the same size.
- Chunk sizes that are no power of two, for which the C mask of the offset means nothing, and the rest of a double-buffered
  IN transfer with one-packet chunks after its first wrong call.
- Transfers on the control pipe, descriptors and strings, SET_FEATURE stalls, chained transfers and default transfers of
  the engine. The mass storage model has the last two for its own pipes.
- PICOBOOT commands without data, AT_EXEC, flash vectoring, erase and exclusive access; tokens, and an interface reset
  while a task runs. A failing task is taken to leave memory as it was.
- The contents of SCSI responses, and of sectors as they pass through a read or write of blocks: only their number and place.
- The packet engine under the mass storage device is reduced to transfers that move their packets in order and complete
  once, and sector reads and writes are synchronous; UF2 writing is not part of this model.
- Payloads of NaNs, and the square root, exponential, logarithm and trigonometric routines.
- The generator's file handling and header output.
- The registers of the serial controller other than its data register and two levels, and the chip select.
- SpiPump.PutGet: how long the hardware may stand still is a number given to the method; without a bound the loop need
  not end.
- VirtualDisk.ReadBlock: the two fixed files and the serial number are parameters; memory is modelled to one cluster
  beyond its end, because the last linked cluster is computed from there.
