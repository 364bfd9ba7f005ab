# FPsPIN host side: a verified model

FPsPIN is a network card with on-card packet handlers, built on the Corundum (mqnic) card. This project models the
parts of its host software that carry real arithmetic, state or protocol content, and proves what they compute. The
verifier is Dafny 4.11; `dafny verify dfyconfig.toml` checks everything.

| component | modules | source |
|---|---|---|
| time arithmetic | `Timespecs` | `utils/timespec.c`, `utils/mqnic-config.c` |
| SLMP sender | `SlmpSegments`, `SlmpSender`, `SlmpSuccess`, `SlmpReturns`, `SlmpDelivery` | `lib/fpspin/slmp.c` |
| serial flash | `SpiDevice`, `SpiPins`, `SpiDriver`, `SpiCommands` | `utils/flash_spi.c` |
| firmware tool | `FlashErase`, `FlashVerify`, `BitReversal`, `FlashSlot`, `DualQspi`, `DualSlot`, `PartName` | `utils/mqnic-fw.c` |
| parallel flash | `BpiDevice`, `BpiDriver`, `BpiCommands`, `BpiTransfer`, `BpiErase` | `utils/flash_bpi.c` |
| eye scan | `GtFields`, `EyeRegisters`, `EyeGrid`, `EyeScan` | `utils/xcvr_gt.c`, `utils/xcvr_gthe3.c` |
| register blocks | `RegBlocks` | `lib/mqnic/reg_block.c` |
| build scheduler | `BuildScheduler` | `fpga/build_images.py` |
| shared | `Bits`, `Bytes`, `NorMemory`, `Sums` | |

## How the parts are modelled

- **Time arithmetic.** `long` is a bounded `newtype`, so absence of overflow is part of every proof. `timespec_mod`
  doubles its divisor into a form in which the nanoseconds may equal 10^9; the proofs carry that form through.
- **SLMP sender.** The parallel loop is a state machine. Every window check, receive, receive error, timeout, send and
  send failure of every thread is a separate step, and any thread may take any other thread's acknowledgement. The
  safety theorems are about all reachable states, with any assignment of iterations to threads; that the call can
  succeed is proved for every fixed assignment, a static schedule among them. The network may lose and delay
  acknowledgements but never duplicates one: a receive takes an acknowledgement only of a packet that is in flight.
  `lastprivate(cur)` has its sequential meaning: the first value that fails the loop test. A receive that finds nothing
  is not a step; the timeout of a wait is.
- **Flash.** The device side is part of the model: a serial flash that sees only pin levels, samples on rising clock
  edges, shifts out on falling ones, wraps a page program inside its page, can only clear bits and knows four address
  bytes only above 16 MiB; and a parallel flash that sees bus cycles, for the Intel, Micron and AMD command sets, with
  one or two regions of erase blocks, which Intel and Micron devices lock. Operations stay busy for an arbitrary number
  of status reads. A serial device whose write-enable has no effect, a parallel device whose programs and erases fail,
  and a device about which nothing at all is known are modelled as well. Where the firmware tool passes a buffer that is
  shorter than the length it asks for, what follows the buffer in memory is an arbitrary parameter.
- **Eye scan.** The measurement engine is part of the model: it measures at the point that the packed fields select
  when it is started, counts errors only with error detection on, and a measurement is spoilt if either changes while
  it runs. The fields are decoded at the bits where they are, not with the driver's masks. Registers have 16 bits,
  which is what the reconfiguration port transfers.
- **Register blocks.** Memory is an arbitrary function from byte offsets to words that does not change during the walk;
  the offsets that the walk reads are recorded.
- **Build scheduler.** A state machine over the awaits of `Build.run`, with log lines arriving at any moment. An
  exception in one stream reader ends the job but not the other reader, which goes on to see log lines and can still
  return the synthesis permit.

## Where the code does not do what it says, or what one would expect

- `slmp_socket` and `slmp_sendmsg` call a window of 0 unlimited. With it, a message of several packets cannot be sent
  successfully as long as no receive fails, because the final drain waits for acknowledgements that were not asked for
  (`SlmpSuccess.CleanSuccessIff`).
- An error while waiting for the SYN's acknowledgement counts as success, because -1 is not 0. The late acknowledgement
  can then pay for another packet, and a message of three packets with window 0 is reported as sent with two
  acknowledgements (`SlmpSuccess.SynErrorPays`). `SlmpSuccess.CanSucceedIff` says exactly when 0 can be returned, and
  `SlmpSender.ReturnsZero` when every packet was then acknowledged.
- A receive error of -1 is added to a thread's window as if it were a number of acknowledgements, which destroys credit
  (`SlmpSuccess.ErrorBreaksConservation`) and lets the thread send beyond the window
  (`SlmpSuccess.ErrorOverrunsWindow`). `SlmpSender.CreditConservation` says after exactly which events the law of
  conservation holds, and `SlmpSender.WindowRespected` that the window is respected while no receive fails.
- `timespec_mod` can stop doubling one step early when the dividend is close to the largest `long`
  (`Timespecs.EarlyStopHappens`); `Timespecs.Mod` says exactly when the result is right.
- A build that raises keeps its build permit for ever, and its synthesis permit unless its other stream reader still
  sees the line that ends synthesis. The other builds can then wait for ever (`BuildScheduler.RaiseCanDeadlock`,
  `BuildScheduler.LateLineCanFree`, `BuildScheduler.DeadlockIff`).
- The dual flash write loses the last byte of some images of odd length (`DualSlot.LostByte`), and the split drops the
  last 0x68 bytes of the slot; `DualSlot.DualRoundTrip` says exactly which images survive. A secondary device that
  refuses to be written is noticed only after the primary one has been erased (`DualSlot.ProgramHalves`).
- The length of segment 0 may be any multiple of 4 KiB, so that half of it need not be a whole number of erase blocks.
  The rounded length then exceeds the buffers and the slot: the tool writes whatever follows its buffers into the next
  slot (`DualSlot.OddSlotOverruns`). `DualSlot.HalfStaysInsideIff` and `DualSlot.KeepsNextSlotIff` say exactly when it
  does not. The same happens on a parallel flash with larger blocks (`FlashSlot.SlotOverruns`,
  `FlashSlot.SlotStaysInsideIff`).
- The parallel flash write drops the last byte of data of odd length, and reports success unless that byte is alone in
  its piece (`BpiTransfer.LossUnnoticedIff`, `BpiTransfer.OddLengthAccepted`). At an odd address its first piece goes
  one byte too low, or is refused if it is a single byte (`BpiTransfer.OddReadsBackIff`,
  `BpiTransfer.OddLossUnnoticedIff`, `BpiTransfer.OddAddressAccepted`, `BpiTransfer.OddAddressRefused`).
- Writing a single byte to an Intel or Micron flash is refused and leaves an error in the status register. Only opening
  the device again clears it; until then every erase fails before it starts (`BpiErase.ByteThenErase`,
  `BpiErase.EraseStatus`), and a write programs its first piece and then reports a failure (`BpiTransfer.Write`). An AMD
  flash recovers.
- An eye scan goes past its stop value when the step does not divide the range, and can leave the range of the fields
  that way (`EyeScan.OvershootDoesNotFit`, `EyeScan.GridFitsIff`).
- A target bit count that no prescaler reaches makes the driver choose 32, which does not fit its field: the hardware
  counts with prescaler 0 while the reports assume 32 (`EyeScan.TargetOutOfReach`, `EyeScan.ChoosePrescale`,
  `EyeScan.Channel.FullScan`).
- The bound check of the register-block walk does not keep the reads inside the mapped region
  (`RegBlocks.LastWordIsRead`); `RegBlocks.Enumerate` says exactly when they stay inside.

## Model

| member | source | states |
|---|---|---|
| Timespecs.Normalise | utils/timespec.c:319-353 | the result has the same total nanoseconds, is in normal form, and an input in normal form is returned as it is; no field overflows |
| Timespecs.ComparatorsAreIntegerOrder | utils/timespec.c:197-232 | on normal forms the five comparators are the integer order of total nanoseconds |
| Timespecs.Add | utils/timespec.c:70-82 | exact on all inputs whose totals and sum are representable, in normal form |
| Timespecs.Sub | utils/timespec.c:87-99 | exact, in normal form, on all inputs whose totals and difference are representable and for which the subtraction of the seconds does not overflow |
| Timespecs.SubFitsIff | utils/timespec.c:87-99 | on normal forms the field subtraction and its result stay in range if and only if the difference is representable and the subtrahend can be negated or the minuend is at most -1 s |
| Timespecs.GeShifted | utils/timespec.c:197-232 | comparison stays exact when the divisor holds 10^9 nanoseconds |
| Timespecs.Double | utils/timespec.c:139-151 | doubling is exact, though it may leave 10^9 nanoseconds |
| Timespecs.Halve | utils/timespec.c:153-174 | halving an even total is exact, from the form with 10^9 nanoseconds too |
| Timespecs.ShiftUp | utils/timespec.c:139-151 | the loop ends after at most 95 doublings, with the divisor times a power of two, and either reaches the dividend or has given up at the overflow guard, at the first chance |
| Timespecs.Divide | utils/timespec.c:153-174 | the loop restores the divisor and leaves the remainder, or, after giving up early, exactly the amount that is too much |
| Timespecs.RestoreSigns | utils/timespec.c:104-192 | the sign fix-up gives the signed result in normal form without overflow |
| Timespecs.Mod | utils/timespec.c:104-192 | for all signs the result is in normal form and is the floored remainder if and only if the doubling was not cut short, and otherwise still differs from the dividend by a multiple of the divisor that lies between zero and the dividend; a zero divisor returns the dividend |
| Timespecs.FloorModUnique | utils/timespec.c:104-192 | the floored remainder is the only r with a == q*b + r, a magnitude below that of b and the sign of b |
| Timespecs.FloorModExists | utils/timespec.c:104-192 | such a quotient exists for every dividend and every non-zero divisor |
| Timespecs.NoEarlyStop | utils/timespec.c:139-151 | the doubling is never cut short for a dividend of at most MAX-2 seconds |
| Timespecs.EarlyStopHappens | utils/timespec.c:139-151 | a pair of inputs for which it is cut short |
| Timespecs.AlignStart | utils/mqnic-config.c:215-239 | for every current time for which nothing overflows: the start is in normal form and congruent to the old one modulo the period; one that is not in the past is kept; one in the past moves to strictly within one period of now, and it is clear on which side, unless `timespec_mod` stops early |
| Timespecs.MoveByPeriods | utils/perout.c:129-141 | the moved start is congruent to the old one modulo the period, and within one period of now unless `timespec_mod` stops early, for every current time for which nothing overflows |
| SlmpSegments.PayloadSize | lib/fpspin/slmp.c:219-219 | the payload is the largest multiple of the alignment that, with the IP, UDP and SLMP headers of 20, 8 and 10 bytes, fits 1500 bytes, and not empty |
| SlmpSegments.Segment | lib/fpspin/slmp.c:219-310 | the packets tile the message in order, are aligned and carry its bytes; all but the last are full; SYN is on the first, the last and, with a window, all; EOM exactly on the packet that ends the message |
| SlmpSegments.SegmentationIsUnique | lib/fpspin/slmp.c:258-310 | these conditions leave exactly one way to cut a message |
| SlmpSegments.Reassembly | lib/fpspin/slmp.c:138-151 | writing the payloads at their offsets, in any order and with any repetition, rebuilds the message over any old contents |
| SlmpSegments.SomePacketCovers | lib/fpspin/slmp.c:258-310 | every byte of the message is in some packet |
| SlmpSender.StepKeepsThreads | lib/fpspin/slmp.c:253-289 | every step of every thread keeps the books: a packet is marked as held exactly while one thread works on it |
| SlmpSender.StepKeepsLog | lib/fpspin/slmp.c:157-185 | every step keeps the log of sent packets free of repetition and equal to the packets marked as sent |
| SlmpSender.StepKeepsCredits | lib/fpspin/slmp.c:75-136 | every step keeps credit held, packets in flight, credit destroyed by errors and unanswered packets in balance |
| SlmpSender.StepKeepsOutcome | lib/fpspin/slmp.c:282-324 | every step keeps the link between failures, skipped packets, the exit flag and the return value |
| SlmpSender.SumOfRets | lib/fpspin/slmp.c:253-294 | the summed return value of the parallel loop is zero exactly when no thread failed |
| SlmpSender.ReachableInv | lib/fpspin/slmp.c:187-329 | all of these hold in every reachable state |
| SlmpSender.CreditConservation | lib/fpspin/slmp.c:245-289 | under every interleaving no window exceeds the limit, a window is negative if and only if its thread had a receive error, and windows plus local acknowledgements plus packets in flight equal limit times threads if and only if credit destroyed by receive errors plus unanswered sends equals the number of SYN errors; so without errors, and with a window, always; the shares of the threads together are at least the window and exceed it by less than one packet per thread |
| SlmpSender.ShareOfWindow | lib/fpspin/slmp.c:244-251 | the rounded-up share times the number of threads is at least the window, and less than one packet per thread above it |
| SlmpSender.WindowRespected | lib/fpspin/slmp.c:127-136 | as long as no receive fails while draining, at every moment of every run, until it has returned, fewer packets are in flight than the window and one more per thread, and one more still if the wait for the SYN's acknowledgement failed |
| SlmpSender.CreditIsLostIff | lib/fpspin/slmp.c:43-136 | in every run credit has been destroyed if and only if a receive failed while draining, and the SYN's acknowledgement is owed if and only if the wait for it failed |
| SlmpSender.NegativeWindowIff | lib/fpspin/slmp.c:127-136 | the window of a thread is negative if and only if that thread had a receive error |
| SlmpSender.StarvedThread | lib/fpspin/slmp.c:127-136 | in every reachable state, whatever receive errors there have been, while a thread has no credit at least its whole share of the window is in flight, and the SYN besides if its acknowledgement is owed, whoever takes the acknowledgements; its share is the window divided by the threads, rounded up |
| SlmpReturns.RunsAreShort | lib/fpspin/slmp.c:187-329 | whatever the interleaving and the network, no run has more than 5 * n + 7 steps for n packets |
| SlmpReturns.NeverStuck | lib/fpspin/slmp.c:187-329 | in every reachable state in which the call has not returned some step is possible |
| SlmpReturns.MaximalRunReturns | lib/fpspin/slmp.c:187-329 | so a run that cannot be continued has returned, after at most that many steps |
| SlmpReturns.ReturnValues | lib/fpspin/slmp.c:231-329 | the call returns -3 if and only if the SYN could not be sent, -2 if and only if its acknowledgement timed out, and otherwise 0 or -1 |
| SlmpReturns.CanRefill | lib/fpspin/slmp.c:75-136 | in every reachable state a thread without credit can get its whole share back in one drain, whoever's packets are acknowledged |
| SlmpSender.ReturnsZero | lib/fpspin/slmp.c:231-324 | if the call returns 0, every packet was sent exactly once, all but at most one are acknowledged, and all are if and only if no SYN error was left unpaid by destroyed credit; without a SYN error all are; with window 0 the message had one packet, or three and a SYN error |
| SlmpSender.FailureStopsTheMessage | lib/fpspin/slmp.c:285-294 | if any thread fails, the last packet of a longer message is never sent and the call returns -1 |
| SlmpSender.EndOfMessageIsLast | lib/fpspin/slmp.c:306-310 | the packet with EOM goes out only when every other packet has been sent |
| SlmpSuccess.CanSucceedIff | lib/fpspin/slmp.c:211-324 | the call can return 0 if and only if the window is not 0 or the message is one packet or three, over all runs and for every fixed assignment of iterations to threads |
| SlmpSuccess.CleanSuccessIff | lib/fpspin/slmp.c:211-324 | without receive errors, if and only if the window is not 0 or the message is one packet, again for every assignment |
| SlmpSuccess.SynErrorPays | lib/fpspin/slmp.c:239-242 | a run with window 0 and a SYN error that returns 0 with two acknowledgements for three packets |
| SlmpSuccess.ErrorBreaksConservation | lib/fpspin/slmp.c:127-136 | a run in which one failed receive turns a window of 0 into -1 and breaks the conservation of credit |
| SlmpSuccess.ErrorOverrunsWindow | lib/fpspin/slmp.c:127-136 | a run in which one thread, with a window of one packet, has two packets in flight after a failed receive |
| SlmpDelivery.SuccessDelivers | lib/fpspin/slmp.c:187-329 | when the call returns 0, a receiver that gets what was sent, in any order and number, holds exactly the message |
| SpiDriver.SpiFlash.WriteByte | utils/flash_spi.c:161-206 | for one, two and four lines, the pin trace makes the device take exactly this byte |
| SpiDriver.SpiFlash.ReadByte | utils/flash_spi.c:112-159 | for one, two and four lines, the byte gathered from the pins is the byte the device sends, whatever the other lines show |
| SpiPins.ReceiveStr | utils/flash_spi.c:112-159 | the bits gathered one by one build the byte from its high end |
| SpiPins.ReceiveDual | utils/flash_spi.c:112-159 | the same two at a time |
| SpiPins.ReceiveQuad | utils/flash_spi.c:112-159 | the same four at a time |
| SpiPins.ByteEnds | utils/flash_spi.c:161-206 | after the last group of bits the device has the whole byte and acts on it |
| SpiCommands.WriteAddr | utils/flash_spi.c:208-213 | the device decodes the three bytes to this address |
| SpiCommands.WriteAddr4b | utils/flash_spi.c:215-221 | the device decodes the four bytes to this address |
| SpiCommands.WriteEnable | utils/flash_spi.c:223-227 | sets the write latch unless the device refuses |
| SpiCommands.ReadStatus | utils/flash_spi.c:235-242 | the status byte of that moment, and time passes |
| SpiCommands.WaitReady | utils/flash_spi.c:476-476 | ends, for any latency, with the device ready and nothing else changed |
| SpiCommands.Read | utils/flash_spi.c:353-411 | for every address and length, protocol and address size, the bytes of memory from there on; the device is left as it was |
| SpiCommands.OpenArray | utils/flash_spi.c:355-397 | after the read command the device is at the address and answers on four lines if the driver has four, and else on one; a device of up to 16 MiB knows only three address bytes |
| SpiCommands.SendPage | utils/flash_spi.c:462-471 | the bytes sent never leave the page, and stop only at its end or at the end of the data |
| SpiCommands.PageIsRange | utils/flash_spi.c:462-471 | a page program that does not wrap is a program of the range |
| SpiCommands.ProgramChunk | utils/flash_spi.c:417-478 | one page program clears bits in exactly its range, or nothing happens when writing cannot be enabled |
| SpiCommands.Write | utils/flash_spi.c:413-482 | the whole range is programmed and nothing else, across pages; it succeeds if and only if there is nothing to write or writing can be enabled |
| SpiCommands.TilesTile | utils/flash_spi.c:484-567 | the blocks that an erase chooses are self-aligned, disjoint and cover exactly the range, each of 64 KiB wherever an aligned one fits and of 4 KiB elsewhere |
| SpiCommands.EraseBlock | utils/flash_spi.c:510-555 | erases exactly one aligned block, or nothing |
| SpiCommands.Erase | utils/flash_spi.c:484-567 | returns 0 if and only if the length is 0 or writing can be enabled and address and length are multiples of 4 KiB; erases exactly the tiles, in order |
| FlashErase.PieceFacts | utils/mqnic-fw.c:320-340 | a piece is not empty; it is the whole rest if that fits the step, and otherwise it ends at the next multiple of the step |
| FlashErase.TilesSplit | utils/mqnic-fw.c:308-357 | cutting a range at a multiple of 64 KiB does not change the blocks that are erased |
| FlashErase.EraseProgress | utils/mqnic-fw.c:308-357 | has the same result and the same memory, and erases the same blocks in the same order, as one direct erase |
| FlashVerify.FitsIff | utils/mqnic-fw.c:259-294 | programming leaves exactly the data if and only if every byte is reachable by clearing bits |
| FlashVerify.VerifyPiece | utils/mqnic-fw.c:266-294 | on any device, success means that all of four read-backs returned and the last was the data, and on one about which nothing is known that is exactly when it succeeds; on a working one, success if and only if the memory holds the data |
| FlashVerify.WritePiece | utils/mqnic-fw.c:259-294 | for every range, on a working serial or parallel device a piece succeeds if and only if the device can be written, its driver accepts the piece and the memory then holds the data; the memory is what the driver's write leaves, or unchanged if the device refuses |
| FlashVerify.WholeAttempt | utils/mqnic-fw.c:259-294 | whole words succeed on a device that accepts them if and only if every byte is reachable by clearing bits, and only their range changes |
| FlashVerify.HoldsNext | utils/mqnic-fw.c:241-301 | a piece that succeeds does not spoil the pieces before it, also when the first one started at an odd address |
| FlashVerify.WriteVerifyProgress | utils/mqnic-fw.c:215-306 | on any device, success means that the pieces partition the range, fit the check buffer, were each written once and read back four times, and were last read back as the source; on a working serial or parallel one it means for every range that the memory holds the source, and whole words succeed if and only if the device can be written and the source fits, and leave everything outside the range as it was |
| BitReversal.Reverse8Twice | utils/mqnic-fw.c:42-48 | the three exchanges turn a byte round bit by bit, so that bit i comes from bit 7 - i; doing it twice is the identity, and 0xff is kept |
| BitReversal.ReverseInPlace | utils/mqnic-fw.c:1075-1081 | in every byte of the buffer, bit i then is what bit 7 - i was |
| BitReversal.Reverse16Bytes | utils/mqnic-fw.c:33-40 | reversing a 16-bit word turns both of its bytes round and exchanges them |
| BitReversal.ReverseWords | utils/mqnic-fw.c:1063-1072 | in every 16-bit word of the buffer, low byte first, bit i then is what bit 15 - i was |
| DualSlot.PaddingCommutes | utils/mqnic-fw.c:953-1081 | the slot is the same whether padding or reversal comes first |
| FlashSlot.FillSegment | utils/mqnic-fw.c:953-990 | the buffer holds the image followed by 0xff |
| FlashSlot.RoundedLengthFacts | utils/mqnic-fw.c:1195-1199 | the rounded length is the next multiple of the block and stays inside a slot of whole blocks |
| FlashSlot.SlotStaysInsideIff | utils/mqnic-fw.c:1195-1199 | the rounded length stays inside the slot for every image if and only if the slot ends on a block boundary |
| FlashSlot.SlotOverruns | utils/mqnic-fw.c:1195-1199 | a family of slots that a full image leaves |
| FlashSlot.EraseRange | utils/mqnic-fw.c:1215-1222 | on both kinds of device a range that ends on a block boundary is erased if and only if it starts on one and the device can be written, and otherwise nothing changes |
| FlashSlot.ProgramSlot | utils/mqnic-fw.c:953-1232 | on a serial and on a parallel device, succeeds if and only if the image fits, has its sync word, the slot starts on a block boundary and the device can be written; then exactly the padded image, and beyond the slot what follows the buffer, is in the rounded range and every other byte is as before, and otherwise nothing changed; bit by bit, a board gets each byte of the image as it is, turned round, or turned round with its 16-bit word |
| FlashSlot.ReadProgress | utils/mqnic-fw.c:107-158 | returns the bytes of the range in order |
| FlashSlot.ReadSlot | utils/mqnic-fw.c:1238-1299 | the slot in the bit order of the file, stated bit by bit as for the write action, with the contents of the device as before |
| FlashSlot.SlotRoundTrip | utils/mqnic-fw.c:954-1299 | reading a programmed slot gives the image back in all three bit orders, also for odd lengths reversed by words |
| DualQspi.NibbleRoundTrip | utils/mqnic-fw.c:1117-1118 | of two bytes the primary device gets the low nibbles and the secondary one the high nibbles, those of the first byte on top; merging gives the bytes back |
| DualQspi.NibbleRoundTripBack | utils/mqnic-fw.c:1262-1263 | merging takes the low nibbles from the primary device and the high nibbles from the secondary one; splitting again gives the device bytes back |
| DualQspi.Split | utils/mqnic-fw.c:1098-1121 | the primary half has the header and then the low nibbles of the pairs, the secondary half 0xff and then the high nibbles, pair by pair; every index is inside the halves |
| DualQspi.Merge | utils/mqnic-fw.c:1245-1266 | header, low and high nibbles come from those places, with 0xff in the last 0x68 bytes |
| DualQspi.SplitThenMerge | utils/mqnic-fw.c:1098-1266 | the identity on all but the last 0x68 bytes, and on everything if and only if those are 0xff |
| DualQspi.HalvesSufficeIff | utils/mqnic-fw.c:1103-1121 | n bytes of each half determine the image if and only if n covers what is needed of it and only 0xff lies beyond what the split keeps |
| DualQspi.HalfLengthIsShortIff | utils/mqnic-fw.c:1105-1108 | between the header and the last 0x68 bytes the computed length is exactly what an image of even length needs, and one less for an odd length; elsewhere it is half the slot |
| DualSlot.HalfWrittenIsShortIff | utils/mqnic-fw.c:1123-1127 | for every slot that starts on a block of both devices, after rounding it is too short if and only if, besides, it was a whole number of blocks already |
| DualSlot.HalfStaysInsideIff | utils/mqnic-fw.c:1123-1127 | the rounded length stays inside half the slot for every image if and only if half the slot is a whole number of blocks |
| DualSlot.OddSlotOverruns | utils/mqnic-fw.c:1123-1176 | a family of slots, among them one of 0x1003000 bytes, whose halves a full image leaves |
| DualSlot.KeepsNextSlotIff | utils/mqnic-fw.c:1143-1187 | whatever is on the devices and behind the buffers, the bytes behind the slot are kept for every image if and only if half the slot is a whole number of blocks |
| DualSlot.ProgramHalves | utils/mqnic-fw.c:1143-1187 | what is on both devices after success, after an unaligned start, after the primary device refuses and after the secondary one refuses |
| DualSlot.ProgramDual | utils/mqnic-fw.c:1085-1190 | also for two devices of different size: succeeds if and only if the image has both sync words, the slot starts on a block of both devices and both can be written; then exactly the written parts of the halves, and beyond them what follows the buffers, are on the devices; the halves hold the low and the high nibbles of the image, each byte turned round bit by bit if the board needs it |
| DualSlot.ReadDual | utils/mqnic-fw.c:1243-1299 | the nibbles of both devices put together, each byte turned round bit by bit if the board needs it, with the devices as before |
| DualSlot.DualRoundTrip | utils/mqnic-fw.c:1085-1299 | an image reads back, whatever was on the devices before and whatever follows the buffers, if and only if no byte falls between rounding and odd length and only 0xff reaches into the last 0x68 bytes |
| DualSlot.LostByte | utils/mqnic-fw.c:1105-1127 | a family of images, the smallest of 8089 bytes, that do not read back |
| PartName.StrIStr | utils/mqnic-fw.c:50-90 | returns the leftmost occurrence in which an ASCII letter counts as its other case and nothing else does, or null if and only if there is none, and terminates although it moves backwards |
| PartName.ToLowerIff | utils/mqnic-fw.c:56-78 | two characters have the same lower case if and only if they are equal or an ASCII letter and its other case |
| PartName.PartMatches | utils/mqnic-fw.c:1012-1012 | accepts if and only if the device name is a case-insensitive prefix |
| BpiDriver.BpiFlash.WriteCur | utils/flash_bpi.c:108-114 | one write cycle of this word at the latched address |
| BpiDriver.BpiFlash.ReadCur | utils/flash_bpi.c:90-100 | one read cycle, although the data register is read twice |
| BpiCommands.WaitStatus | utils/flash_bpi.c:187-195 | polling ends for any latency, and reports failure if and only if the device flagged an error |
| BpiCommands.WaitToggle | utils/flash_bpi.c:226-248 | polling ends for any latency with the device ready, also when it finishes between the three reads, and reports failure if and only if the device did |
| BpiCommands.BurntWords | utils/flash_bpi.c:180-184 | programming the collected words is programming the bytes, low byte first |
| BpiCommands.FillBuffer | utils/flash_bpi.c:180-184 | every word reaches the buffer at its own address, none leaves the window, and the device is then ready for the confirmation |
| BpiCommands.BufferedProgram | utils/flash_bpi.c:271-298 | for all three command sets: the words are programmed and nothing else, or nothing at all; success if and only if there is a word, the device does not fail and no error stood before; which error stands afterwards |
| BpiTransfer.ChunkInWindow | utils/flash_bpi.c:560-564 | the words of a piece stay inside one window of the buffer, for even and odd addresses |
| BpiTransfer.Write | utils/flash_bpi.c:552-581 | for every address: at an even one exactly the whole words of the data are programmed, with success if and only if the device does not fail and the last byte is not alone in its piece; at an odd one the first piece goes one byte too low or is refused, and the rest is a write to an even address; if an error stands already, only the first piece is programmed and the write fails |
| BpiTransfer.PiecesEven | utils/flash_bpi.c:556-577 | cutting a write to an even address at the windows of the buffer leaves the same memory as one program, and fails only for a lone byte |
| BpiTransfer.PiecesOdd | utils/flash_bpi.c:556-577 | what becomes of a write to an odd address |
| BpiTransfer.Read | utils/flash_bpi.c:517-550 | the bytes of memory for odd and even start and length, with the device ready as before |
| BpiTransfer.WrittenReadsBack | utils/flash_bpi.c:517-581 | any part of the words written over erased memory reads back as the data |
| BpiTransfer.ReadsBackIff | utils/flash_bpi.c:552-581 | all of the data reads back if and only if its length is even or its last byte is 0xff |
| BpiTransfer.OddReadsBackIff | utils/flash_bpi.c:552-581 | every write to an odd address of an erased range: if the device fails or the first piece is a single byte it is refused and nothing changes, so that the range reads back if and only if the data is all 0xff; otherwise it reads back if and only if the first piece is all 0xff and what follows has even length or a last byte 0xff, and succeeds if and only if no last byte is alone in its piece |
| BpiTransfer.OddLossUnnoticedIff | utils/flash_bpi.c:552-581 | a write to an odd address succeeds and yet does not read back if and only if its first piece has more than one byte, no last byte is alone in its piece, and that condition on the data fails |
| BpiTransfer.OddAddressAccepted | utils/flash_bpi.c:552-581 | two bytes at address 1: the write succeeds and they do not read back |
| BpiTransfer.OddAddressRefused | utils/flash_bpi.c:552-581 | three bytes at address 3 with windows of four bytes, the first of them 0xff: the write is refused, and they do not read back |
| BpiTransfer.LossUnnoticedIff | utils/flash_bpi.c:552-581 | a write to an even address succeeds and yet does not read back if and only if its length is odd, and its last byte is not 0xff and not alone in its piece |
| BpiTransfer.OddLengthAccepted | utils/flash_bpi.c:552-581 | three bytes at address 0 whose last is not 0xff: the write succeeds and they do not read back |
| BpiErase.EraseStatus | utils/flash_bpi.c:146-170 | Intel and Micron: unlocks and erases exactly the block of the address, for any latency, and fails if and only if the device flags an error; an error that stands already stops it before anything is erased; afterwards an Intel device shows its status and a Micron device its array |
| BpiErase.EraseToggle | utils/flash_bpi.c:250-269 | AMD: the same without a lock, after the timer before the erase has run out, and leaves no error behind |
| BpiErase.NextBoundary | utils/flash_bpi.c:589-599 | from a block boundary the next one is one block on, also across the boundary of two regions |
| BpiErase.ErasableIff | utils/flash_bpi.c:583-634 | all of a range is erased if and only if it starts and ends at a block boundary |
| BpiErase.Erase | utils/flash_bpi.c:583-634 | erases whole blocks of both regions up to the first place where the range does not consist of them; succeeds if and only if that is its end, the device does not fail and, on an Intel or Micron device, no error stands; otherwise, if the device fails or an error stands, nothing is erased |
| BpiErase.ByteThenErase | utils/flash_bpi.c:146-170 | a single byte written and then a range erased: Intel and Micron refuse both and nothing changes; AMD refuses the byte and erases as without it |
| BpiErase.ErasableSplit | utils/mqnic-fw.c:308-357 | cutting a range at a block boundary does not change what is erased |
| BpiErase.EraseProgress | utils/mqnic-fw.c:308-357 | on a parallel flash has the same result and the same memory as one direct erase, with a step that is the larger of the two block sizes or 64 KiB |
| GtFields.InsertExtract | utils/xcvr_gt.c:82-113 | a masked read returns what a masked write wrote, cut to the field |
| GtFields.InsertKeepsOthers | utils/xcvr_gt.c:103-113 | a masked write leaves every other field of the register alone |
| GtFields.FieldsApart | include/gt/gthe3_regs.h:795-810 | the fields of the eye-scan registers do not overlap |
| EyeRegisters.WriteChangesOneField | include/gt/gthe3_regs.h:1564-1579 | of all fields the hardware sees, at the bits where they are, a write through the mask and shift of the driver changes exactly one |
| EyeRegisters.HorzRoundTripIff | utils/xcvr_gthe3.c:509-509 | the hardware sees the horizontal offset if and only if it fits 12 bits |
| EyeRegisters.VertRoundTripIff | utils/xcvr_gthe3.c:510-511 | the hardware sees the vertical offset if and only if its magnitude fits 7 bits |
| EyeGrid.SuccessorRest | utils/xcvr_gthe3.c:552-613 | one step of the driver is one step of the walk over the grid |
| EyeGrid.AllLength | utils/xcvr_gthe3.c:552-613 | a scan has nh*nv points, or twice as many with decision feedback |
| EyeGrid.LastValue | utils/xcvr_gthe3.c:572-601 | the last value of an axis is the first one that reaches the stop |
| EyeGrid.OnAxisIff | utils/xcvr_gthe3.c:572-601 | the values of an axis, in closed form |
| EyeGrid.InAll | utils/xcvr_gthe3.c:552-613 | the walk visits exactly the combinations of a horizontal value, a vertical value and a polarity |
| EyeGrid.AllSorted | utils/xcvr_gthe3.c:552-613 | it visits them in lexicographic order, none twice |
| EyeScan.Channel.WriteMasked | utils/xcvr_gt.c:103-113 | the read-modify-write changes one field, and the engine sees the change |
| EyeScan.Channel.Begin | utils/xcvr_gthe3.c:501-519 | whatever went on before, the engine then measures at the first point and counts errors, all points remain to be reported, and the other settings are kept |
| EyeScan.Channel.Step | utils/xcvr_gthe3.c:522-613 | reports the next point of the walk with what was counted at the selected point, which is the reported one if and only if it fits the fields; the reported bits are the bits examined if and only if the hardware has the driver's prescaler or nothing was counted; while a scan runs the engine measures undisturbed at the point to be reported |
| EyeScan.Channel.Run | utils/mqnic-xcvr.c:366-404 | polling to the end reports exactly the remaining points in order, and ends; the reported bits are the bits examined if and only if the hardware has the driver's prescaler or nothing was counted |
| EyeScan.Channel.FullScan | utils/mqnic-xcvr.c:305-404 | a whole scan reports every point of the grid once, in lexicographic order, with what was counted there, and then stops; the reported bits are the bits examined if and only if the largest prescaler reaches the target or nothing was counted |
| EyeScan.GridFitsIff | utils/xcvr_gthe3.c:572-603 | all points fit the fields if and only if the first and the last value of each axis do |
| EyeScan.OvershootDoesNotFit | utils/xcvr_gthe3.c:572-603 | a vertical axis whose start and stop fit but whose last value does not |
| EyeScan.ChoosePrescale | utils/xcvr_gthe3.c:403-409 | the smallest prescaler that reaches the target, where a sample stands for twice the data width and for twice as much with every step of the prescaler, or 32 if and only if prescaler 31 does not reach it |
| EyeScan.BitCountIsExamined | utils/xcvr_gthe3.c:544-544 | the shift by one and the prescaler gives the bits that the hardware examines: twice the data width for each sample, and twice as many with every step of the prescaler |
| EyeScan.PrescaleSeenIff | utils/xcvr_gthe3.c:403-409 | the hardware uses the prescaler that the bit counts assume if and only if it is less than 32 |
| EyeScan.TargetOutOfReach | utils/xcvr_gthe3.c:403-409 | 64-bit targets that no prescaler reaches at any data width |
| EyeScan.BitCountIff | utils/xcvr_gthe3.c:544-544 | the bits reported with one prescaler are the bits examined with another if and only if they are equal or nothing was counted |
| RegBlocks.WalkIsBounded | lib/mqnic/reg_block.c:27-68 | a walk that does not revisit an offset has at most as many steps as there are offsets |
| RegBlocks.Visit | lib/mqnic/reg_block.c:37-67 | one block is appended inside the capacity, or its address is in the list already and the chain loops |
| RegBlocks.Enumerate | lib/mqnic/reg_block.c:13-74 | terminates on every memory; fails if and only if the chain comes back to a visited offset, and otherwise returns the chain in order with a terminator inside the capacity; every read stays inside the region if and only if no visited block starts in its last eleven bytes |
| RegBlocks.LastWordIsRead | lib/mqnic/reg_block.c:34-50 | a block in the last four bytes passes the bound check and is read beyond the region |
| RegBlocks.Find | lib/mqnic/reg_block.c:76-98 | returns the index-th match, or null if and only if there are too few |
| BuildScheduler.StepKeepsInv | fpga/build_images.py:110-153 | every step, log lines of crashed jobs among them, keeps free permits plus holders constant for both semaphores, and each job's books in order; a log line changes nothing unless it is the one with which the tool ends synthesis |
| BuildScheduler.RunKeepsInv | fpga/build_images.py:110-153 | so does every run, however often log lines arrive and whichever reader raises |
| BuildScheduler.PermitsWhenWaiting | fpga/build_images.py:120-153 | when only waiting jobs are left, every missing permit is with a crashed job or with one that waits for the second kind |
| BuildScheduler.DeadlockIff | fpga/build_images.py:110-153 | no continuation of a run, log lines of crashed jobs included, ever lets an unfinished job take a step, if and only if only waiting jobs are left and crashed jobs hold for good what they wait for |
| BuildScheduler.NoDeadlock | fpga/build_images.py:120-153 | while nothing has raised, and with both limits at least 1, no state with unfinished jobs is deadlocked |
| BuildScheduler.CompletedRun | fpga/build_images.py:110-153 | a run that can go no further, and in which nothing raised, has finished every job and returned every permit exactly once |
| BuildScheduler.RunsAreShort | fpga/build_images.py:120-153 | apart from log lines a run has at most eight steps per job |
| BuildScheduler.LimitsRespected | fpga/build_images.py:120-153 | at every moment of every run, as many jobs have got a build permit and not yet gathered their streams as build permits are missing, and as many have got a synthesis permit and neither shown the line that ends synthesis nor gathered their streams as synthesis permits are missing; so never more than allowed |
| BuildScheduler.OtherLinesChangeNothing | fpga/build_images.py:188-280 | a log line changes the state if and only if the job still has its synthesis permit and the line is the start of run_impl.tcl, or begins with ngdbuild or quartus_fit, for Vivado, ISE and Quartus |
| BuildScheduler.RaiseCanDeadlock | fpga/build_images.py:120-153 | a run that ends in a deadlock after one reader of a job has raised, although the other goes on |
| BuildScheduler.LastReaderRaises | fpga/build_images.py:140-168 | a run in which one reader of a job comes to its end and the other one then raises |
| BuildScheduler.LateLineCanFree | fpga/build_images.py:110-153 | a state in which only the surviving reader of a crashed job can free a waiting job, and which is deadlocked once that reader has ended |

## Left out

- Sockets, clocks, sleeping, memory mapping and PCIe reset: a receive, a timeout or a status read appears only as a
  step or a device answer.
- `lib/fpspin/loader.c` and `lib/fpspin/runtime.c`: register writes and calls of external tools.
- Probing of flash devices and the choice of a command set: the driver is assumed to have found the device it drives.
- The double-rate serial protocols: their cases in the byte routines are empty, and the model sends nothing for them
  either.
- `spi_flash_write_disable`, reset and configuration registers of the serial flash: they would only add members like
  `WriteEnable`.
- Locks of a parallel flash are per block and concern erasing only: a locked block can be programmed.
- Erase regions beyond the second, which `bpi_flash_init` does not read.
- Reading `.bit` files, and the confirmation question: an image is the bytes that reach the segment buffer.
- `utils/xcvr_gthe4.c`, `utils/xcvr_gtye3.c`, `utils/xcvr_gtye4.c`: the same eye-scan machine with other register
  tables.
- The bit-error check and the receiver resets at the start of an eye scan: floating point and reset pulses.
- Conversions of time to and from floating point, timevals and milliseconds.
- Failure of memory allocation in the register-block walk and elsewhere.
- SlmpSegments.Segment: messages of 4 GiB or more are not covered, because the 32-bit offset in the header cannot
  express them.
- EyeScan.Channel.Begin: the steps are positive; with another step a scan whose start is below its stop would never end.
- DualSlot.ProgramDual: the size of each device is assumed to be a multiple of the erase block.
- FlashVerify.WriteVerifyProgress: for a range of a parallel flash that does not consist of whole words, what a failed
  write leaves is stated piece by piece only (`FlashVerify.WritePiece`).
