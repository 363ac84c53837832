# Verification of the Net869 test firmware

A Dafny model of the parts of the firmware with real arithmetic or real concurrency, and
proofs about it. `dafny verify dfyconfig.toml` checks everything.

**The J1708 link.** Two tasks talk to an FPGA over I2C registers and a UART.

- `J1708Reset` runs any number of `J1708_reset` calls against each other, one register
  transfer at a time, with transfers that may fail. `J1708Board` is the same code as methods
  over the registers, proved equal to the uninterrupted steps.
- `UartRing` is the 100-byte receive ring as a class, call by call. `UartRingSteps` lets the
  UART task and the packet reader preempt each other at every access to an index and at
  every byte of the buffer, and shows that an uninterrupted reader does what the whole call does.
- `J1708Link` puts it together: the Tx and Rx loops, the message pool and its queues, the ring,
  and both tasks' resets, in steps of one RTOS call, one register transfer or one UART byte.
  `FpgaLog` is the log of what reaches the FPGA, the FPGA as a function of it, and what the
  bytes of a frame are, for every log. `J1708LinkRuns` has the byte stream and the registers
  over whole runs, `J1708LinkLoops` what each task does after what, the queues, and the ring
  after a reset; `J1708LinkExamples` builds the runs in which things go wrong.

**The USB configuration descriptor.** `UsbDescriptor` has the in-place walk over an array and
proves it equal to patching the parsed records; it also evaluates the shipped table.

**Fixed-point arithmetic of the CMSIS headers.** `Reciprocal`, `Pid`, `Interpolation`,
`Bilinear`, `Circular`, `Saturation`, `BitReverse`, `Nvic`, `PriorityCodec`. Machine integers
are bounded `int`s with every conversion written out (`MachineInt`); bitwise operators are
defined bit by bit (`Bits`); `RegisterBytes` is the left-aligned priority byte that the two
interrupt controllers share.

Where the code and its evident intent or documentation differ, the code is modelled:

- The second copy of a ring read is as long as the whole packet (`fpga_API.c:324-325`). The
  packet is right, but the copy can run past the 64 data bytes and the timestamp of the
  caller's message (`tasks_list.h:71-75`, `J1708_task.c:186`) into the next block of the pool.
  `MemoryAfterRead` says what is then overwritten with what, `FitsIff` and
  `BehindIsLeftAloneIff` when nothing is; `OverrunHappens` is a run that gets there, and by
  `ShortPacketsStayInside` packets of at most 36 bytes never do. The theorems about runs of the
  link assume `StaysInside`: after an overrun the model allows the pool and the messages to be
  anything.
- The write index of the ring is incremented first and wrapped afterwards
  (`fpga_API.c:361-362`), so the reader can see it at 100 (`RacingCheck`).
- Disabling clears the write index twice and the read index never (`fpga_API.c:176-177`), and a
  blocking receive that is already waiting keeps the address it was given
  (`fpga_API.c:358`, `fsl_uart_driver.c:461-475`, `:621`). `DisableIsSafeIff` says when that is
  harmless; `StaleAfterDisable` and `EmptyRingAfterDisable` are inputs on either side.
- `rd == wr` is read as a full ring (`fpga_API.c:334-339`). `CheckIsRightIff` says when the
  check is right.
- Two overlapping resets can put back the control word from before them. `AlwaysConfiguredIff`
  says for which initial words they cannot. On the way, one can turn off the link that the
  other has just enabled (`PriorityWriteTurnsOff`).
- A failed packet read is followed by a reset, and the message is sent all the same
  (`J1708_task.c:186-194`).
- A reset by the Rx task can fall between any two bytes of a Tx message, or between its bytes
  and its length (`J1708_task.c:98-110` against `:155` and `:188`): the FPGA then gets a suffix
  under the whole length. `FramesAreMessages` says exactly when, `TornAnywhere` that every
  suffix occurs, `LeftoversHappen` that bytes of a message given up can precede the next.
- The PID header promises a saturated result and no overflow for an input scaled by two bits;
  the code wraps, and such an input can wrap it (`ScaledInputStillWraps`).
- The interpolation weights add up to 2^20 - 1, so a positive table entry comes out one too
  small; a negative q15 input reads as a large one. `ExactAtKnot`, `Q7MonotoneIff` and
  `Q15MonotoneIff` give the exact conditions. In q31 even a constant table can fall from one
  input to the next, by two units (`Q31ConstantFalls`, `Q31FallsAtMostTwo`).
- The circular write stores its offset in 16 bits (`arm_math.h:6297`); see `OffsetsAgreeIff`.
- The bilinear routine's own test accepts points whose four reads leave the data
  (`arm_math.h:7397-7417`); `AlwaysReadableIff` says for which tables.
- The PID accumulator and the final addition overflow as two's complement, which is what the
  header describes and not what the C standard promises.

## Model

| member | source | states |
|---|---|---|
| J1708Reset.QuietAfterResets | MCU_Test/Sources/J1708/J1708_task.c:218-263 | over every interleaving of overlapping resets, whatever transfers fail, once none is in flight the pin is low, the state is enabled, and priority and all other interrupt-mask bits are as at the start |
| J1708Reset.EnabledAfterResets | MCU_Test/Sources/FPGA_API/fpga_API.c:90-219 | if in addition the transfers that set the interrupt and enable bits succeed, both bits are set and the control word is the configured one or the initial one with the enable bit |
| J1708Reset.AlwaysConfiguredIff | MCU_Test/Sources/FPGA_API/fpga_API.c:158-219 | resets of which no transfer fails, overlapping in any way, always end in exactly ENABLE and PRIO(priority) if and only if the register held that word, up to the enable bit, before the first |
| J1708Reset.StaleWordWins | MCU_Test/Sources/FPGA_API/fpga_API.c:169-182 | from every state there is a run of exactly two resets, the second started while the first is in flight and no transfer failing, that ends with the initial control word |
| J1708Reset.EnabledAloneIff | MCU_Test/Sources/J1708/J1708_task.c:224-263 | for one reset and every pattern of failed transfers, when exactly the enable bit and the interrupt bit are set although the state claims so always |
| J1708Reset.AloneConfigures | MCU_Test/Sources/FPGA_API/fpga_API.c:206-219 | a reset nothing interferes with leaves exactly the configured control word, whatever was there before |
| J1708Reset.ApartEndsConfigured | MCU_Test/Sources/J1708/J1708_task.c:218-263 | any number of resets that do not overlap, with the writes of the control word succeeding, end in exactly the configured word, from whatever word |
| J1708Reset.AloneIs | MCU_Test/Sources/J1708/J1708_task.c:218-263 | the whole register state after one reset, for every pattern of failures |
| J1708Reset.RunsAreSafe | MCU_Test/Sources/J1708/J1708_task.c:218-263 | the inductive invariant: whatever is off is pending in some reset, stale words are known words |
| J1708Reset.WritesWhatItRead | MCU_Test/Sources/FPGA_API/fpga_API.c:90-219 | however resets overlap, a write puts into the register what its reset makes of the word the register held when that reset read it, in numbers, and changes nothing else |
| J1708Reset.FailureLeavesOut | MCU_Test/Sources/FPGA_API/fpga_API.c:90-219 | a failed transfer changes no register, and a failed read leaves out its write |
| J1708Reset.PriorityWriteTurnsOff | MCU_Test/Sources/FPGA_API/fpga_API.c:206-219 | from every state there is a run of two resets without a failure in which the write of the priority clears the enable bit the other reset has just set |
| J1708Reset.ResetTrace | MCU_Test/Sources/J1708/J1708_task.c:218-263 | the registers after each of the steps of one reset, for every pattern of failures: when pin and state change, and what each transfer has left |
| J1708Board.Board.ResetLink | MCU_Test/Sources/J1708/J1708_task.c:218-222 | the code of a reset does what its sixteen single steps do |
| J1708Board.Board.Enable | MCU_Test/Sources/J1708/J1708_task.c:224-246 | new register state for every pattern of failures |
| J1708Board.Board.Disable | MCU_Test/Sources/J1708/J1708_task.c:248-263 | new register state for every pattern of failures, which is that of a reset after its first half; the ring's write index is cleared after a successful read |
| J1708Board.Board.SetIrq | MCU_Test/Sources/FPGA_API/fpga_API.c:90-99 | sets bit 0 of the mask and nothing else, or fails and changes nothing |
| J1708Board.Board.ClearIrq | MCU_Test/Sources/FPGA_API/fpga_API.c:101-111 | clears bit 0 of the mask and nothing else, or fails and changes nothing |
| J1708Board.Board.EnableLink | MCU_Test/Sources/FPGA_API/fpga_API.c:158-167 | sets the enable bit and nothing else, or fails and changes nothing |
| J1708Board.Board.DisableLink | MCU_Test/Sources/FPGA_API/fpga_API.c:169-182 | clears the enable bit and nothing else of the registers, or fails and changes none; the ring's write index is cleared as soon as the read succeeds |
| J1708Board.Board.WritePriority | MCU_Test/Sources/FPGA_API/fpga_API.c:206-219 | keeps the enable bit and replaces the rest of the word by the priority field |
| UartRing.Uart.ReadPacket | MCU_Test/Sources/FPGA_API/fpga_API.c:300-329 | refuses a null buffer or an overflow without changing anything; otherwise advances the read index modulo 100 and writes exactly the packet and the stray bytes after it, wherever the caller's buffer ends |
| UartRing.Uart.CheckOverflow | MCU_Test/Sources/FPGA_API/fpga_API.c:332-344 | the overflow decision |
| UartRing.Uart.ReceiveByte | MCU_Test/Sources/FPGA_API/fpga_API.c:356-362 | stores one byte in the slot of the pending receive, advances the write index around the buffer, and starts the next receive there |
| UartRing.Uart.ReceiveNothing | MCU_Test/Sources/FPGA_API/fpga_API.c:356-362 | a receive that times out starts again at the present write index |
| UartRing.Uart.Disable | MCU_Test/Sources/FPGA_API/fpga_API.c:176-177 | clears the write index only |
| UartRing.ReceiveAppends | MCU_Test/Sources/FPGA_API/fpga_API.c:356-362 | an arrival appends to the queue of unread bytes while there is room |
| UartRing.ReadTakesFront | MCU_Test/Sources/FPGA_API/fpga_API.c:312-328 | an accepted read returns the oldest bytes and leaves the rest |
| UartRing.CheckIsExact | MCU_Test/Sources/FPGA_API/fpga_API.c:332-344 | with something unread the check accepts exactly the lengths that arrived; an empty ring it takes for a full one |
| UartRing.CheckIsRightIff | MCU_Test/Sources/FPGA_API/fpga_API.c:334-339 | the check is right for a length if and only if the ring is not empty, the length is zero, or the length exceeds the buffer |
| UartRing.DestinationNeedBounds | MCU_Test/Sources/FPGA_API/fpga_API.c:323-327 | the over-long second copy needs at most twice the packet, and more than the packet exactly when it wraps |
| UartRing.CopiesAreWritten | MCU_Test/Sources/FPGA_API/fpga_API.c:314-328 | the two copies together write the packet followed, on a wrap, by as many further bytes as it has before the wrap |
| UartRing.FitsIff | MCU_Test/Sources/FPGA_API/fpga_API.c:323-327 | a read stays inside a destination of a given size if and only if it does not wrap or starts late enough; for 64 bytes, length + 36 <= rd |
| UartRing.AlwaysFitsIff | MCU_Test/Sources/FPGA_API/fpga_API.c:323-327 | the lengths that stay inside wherever the read index is are those with 2 length - 1 at most the room |
| UartRing.FullMessageOverruns | MCU_Test/Sources/FPGA_API/fpga_API.c:314-328 | with rd = 60 and wr = 24 a 64-byte read is accepted and writes 104 bytes |
| UartRing.MemoryAfterRead | MCU_Test/Sources/FPGA_API/fpga_API.c:314-328 | behind the packet an accepted read leaves bytes from further along the ring, stated which, and behind what it writes what was there |
| UartRing.BehindIsLeftAloneIff | MCU_Test/Sources/FPGA_API/fpga_API.c:314-328 | memory behind a destination is left alone, whatever it holds, if and only if the read fits |
| UartRing.DisableIsSafeIff | MCU_Test/Sources/FPGA_API/fpga_API.c:169-182 | what arrives after a disable is always read back correctly if and only if read index and slot of the pending receive are zero, or, for one byte, equal |
| UartRing.DisableAndTimeoutIsSafeIff | MCU_Test/Sources/FPGA_API/fpga_API.c:169-182 | if that receive times out first, if and only if the read index is zero |
| UartRing.StaleAfterDisable | MCU_Test/Sources/FPGA_API/fpga_API.c:356-362 | read index zero and a receive pending elsewhere: the next read is accepted and returns the stale first byte of the buffer |
| UartRing.EmptyRingAfterDisable | MCU_Test/Sources/FPGA_API/fpga_API.c:356-362 | an empty ring, wherever its indices are: the next byte is read back |
| UartRingSteps.DeliveredIsPrefix | MCU_Test/Sources/FPGA_API/fpga_API.c:300-364 | over every interleaving of single index accesses and copied bytes, what was delivered is a prefix of what was received; the read index stays below 100, the write index too but between its increment and its wrap-around |
| UartRingSteps.CallsDeliverInFull | MCU_Test/Sources/FPGA_API/fpga_API.c:300-329 | a call that ends has delivered exactly the requested length, or was refused and changed no index |
| UartRingSteps.RacingCheck | MCU_Test/Sources/FPGA_API/fpga_API.c:332-344 | exactly when the check accepts if the write index moves between its two comparisons, also when one of them sees it at 100 |
| UartRingSteps.UninterruptedCall | MCU_Test/Sources/FPGA_API/fpga_API.c:300-329 | without preemption the steps amount to the whole call, with the stray bytes written behind the packet |
| UartRingSteps.CallsWrite | MCU_Test/Sources/FPGA_API/fpga_API.c:314-328 | however it is interrupted, an accepted call writes as many bytes as DestinationNeed says, and the stream for those of the packet and those that had arrived at the call |
| UartRingSteps.RunsKeepInv | MCU_Test/Sources/FPGA_API/fpga_API.c:300-364 | the invariant linking buffer, indices, copies in progress and the two streams holds in every reachable state |
| J1708Link.LengthsAreOfMessages | MCU_Test/Sources/J1708/J1708_task.c:69-113 | each length written is that of a message whose bytes, and nothing else, were sent since it was taken; in order and none twice; nothing is sent except right after a poll, at most the tenth, that reported room |
| J1708Link.FramesAreMessages | MCU_Test/Sources/J1708/J1708_task.c:69-113 | a frame is the whole message if and only if the FPGA held nothing before its first byte and no reset by either task had the link off between that byte and the length; otherwise it is the suffix sent since the link was last off |
| J1708Link.LeftoversWereGivenUp | MCU_Test/Sources/J1708/J1708_task.c:88-110 | what the FPGA holds before a message's first byte belongs to one given up, and the link has been on since |
| J1708Link.LoopsEndEmptyHanded | MCU_Test/Sources/J1708/J1708_task.c:69-209 | at the top of its loop Tx holds nothing and has freed each message once, Rx has sent each allocated message once |
| J1708Link.ExactlyOnePlace | MCU_Test/Sources/J1708/J1708_task.c:69-209 | in every state reachable without an overrun each pool block is in exactly one place |
| J1708Link.RunsKeepInv | MCU_Test/Sources/J1708/J1708_task.c:69-209 | the invariant of both loops over every run |
| FpgaLog.WholeIff | MCU_Test/Sources/J1708/J1708_task.c:98-110 | for every log, a frame is what was sent if and only if nothing was left over and the link stayed on from first byte to length |
| FpgaLog.TornFrame | MCU_Test/Sources/J1708/J1708_task.c:248-263 | for every log, a torn frame is a proper suffix of what was sent, starting where the link was last off |
| FpgaLog.SteadyFrame | MCU_Test/Sources/J1708/J1708_task.c:98-110 | for every log, while the link stays on a frame is the leftovers and everything sent |
| J1708LinkRuns.ForwardedIsPrefix | MCU_Test/Sources/J1708/J1708_task.c:170-194 | until a reset clears the write index, the payloads sent on after successful reads are, joined, a prefix of the UART stream |
| J1708LinkRuns.RxForwardsPacket | MCU_Test/Sources/J1708/J1708_task.c:170-194 | after a successful read the payload of the message sent is the packet, and the message is valid if and only if it is at most 64 bytes |
| J1708LinkRuns.ShortPacketsStayInside | MCU_Test/Sources/J1708/J1708_task.c:152-189 | if no reported length exceeds 36, no read of any run leaves its message |
| J1708LinkRuns.RunsAreResets | MCU_Test/Sources/J1708/J1708_task.c:218-263 | on the registers every run of the two tasks is a run of overlapping resets |
| J1708LinkRuns.LinkComesBack | MCU_Test/Sources/J1708/J1708_task.c:218-263 | whenever neither task is in a reset the registers are untouched, or the link is enabled with priority and other mask bits kept, and both bits set if the transfers that set them succeeded |
| J1708LinkRuns.LogTracksControl | MCU_Test/Sources/FPGA_API/fpga_API.c:158-219 | the link state the log shows is the enable bit of the control register |
| J1708LinkLoops.PollsDecide | MCU_Test/Sources/J1708/J1708_task.c:83-91 | over every run a message is dropped after exactly ten polls without room, and sent after at most ten of which only the last reported room |
| J1708LinkLoops.TxLoop | MCU_Test/Sources/J1708/J1708_task.c:69-113 | over every run, which action of the Tx task follows which: polls until the tenth, a whole reset after a full FPGA, a broken transmission or a failed length, and where the message is freed |
| J1708LinkLoops.TakesPayload | MCU_Test/Sources/J1708/J1708_task.c:79-97 | the message taken is the one queued first, its payload its size less 8 from the front of its data |
| J1708LinkLoops.RxLoop | MCU_Test/Sources/J1708/J1708_task.c:138-209 | over every run, which action of the Rx task follows which: nothing is allocated without the status bit, and a failed length and a refused read are each followed by a whole reset |
| J1708LinkLoops.RxSendsWhatItGot | MCU_Test/Sources/J1708/J1708_task.c:170-198 | the message sent is the block last allocated, its size the length last told plus 8, and no other message changes |
| J1708LinkLoops.RefusedReadKeeps | MCU_Test/Sources/FPGA_API/fpga_API.c:309-310 | a refused read changes neither ring nor pool nor the data of any message |
| J1708LinkLoops.AcceptedReadWrites | MCU_Test/Sources/FPGA_API/fpga_API.c:312-328 | byte for byte what an accepted read that stays inside leaves in its message, and that it changes nothing else but the read index |
| J1708LinkLoops.FitsMeans | MCU_Test/Sources/J1708/J1708_task.c:186-189 | when a read stays inside the 72 bytes of data and timestamp, in numbers |
| J1708LinkLoops.TxQueueIsFifo | MCU_Test/Sources/J1708/J1708_task.c:79-80 | over every run messages are taken in the order in which they were sent to the Tx task |
| J1708LinkLoops.ResetsTouchRing | MCU_Test/Sources/FPGA_API/fpga_API.c:169-182 | a step of a reset clears the write index, and nothing else of the ring, exactly after a successful read for disabling |
| J1708LinkLoops.RingAfterArrivals | MCU_Test/Sources/FPGA_API/fpga_API.c:349-364 | over every part of a run without a read, a time-out or a disable, the ring changes by the arriving bytes alone |
| J1708LinkLoops.ReadAfterReset | MCU_Test/Sources/FPGA_API/fpga_API.c:169-182 | in every run, what is read after a reset is what arrived since if and only if the ring from before it delivers that after a disable; sure to be when read index and pending receive stood right |
| J1708LinkLoops.ReadAfterTimeout | MCU_Test/Sources/FPGA_API/fpga_API.c:356-362 | in every run a receive that times out starts again at the write index; if that is cleared and the read index zero, what arrives next is read back |
| J1708LinkExamples.TornAnywhere | MCU_Test/Sources/J1708/J1708_task.c:69-155 | for every message and every suffix of it there is a run that ends with that suffix framed under the whole length |
| J1708LinkExamples.LeftoversHappen | MCU_Test/Sources/J1708/J1708_task.c:98-102 | for every prefix of a message given up there is a run in which the next message's frame starts with it |
| J1708LinkExamples.ResetLosesBytes | MCU_Test/Sources/FPGA_API/fpga_API.c:169-182 | a run in which two bytes arrive after a reset, are announced, and are not what is read |
| J1708LinkExamples.OverrunHappens | MCU_Test/Sources/J1708/J1708_task.c:170-189 | a run in which no reset takes a step, every byte finds room and every announced packet has arrived, whose next read is accepted and leaves its 64-byte message |
| J1708LinkExamples.KeepsPlacesIffInside | MCU_Test/Sources/J1708/J1708_task.c:170-194 | in every state a run has come to, the next read is sure to keep every block in one place if and only if it is refused or stays inside, a read that leaves its message being allowed to do anything to the pool |
| UsbDescriptor.Descriptors.Walk | MCU_Test/Sources/usb_descriptor.c:808-840 | the pointer walk ends on the end of the table and leaves the serialisation of the patched records |
| UsbDescriptor.Descriptors.PatchRecord | MCU_Test/Sources/usb_descriptor.c:813-838 | one turn rewrites one record and nothing outside it |
| UsbDescriptor.Descriptors.UpdateTables | MCU_Test/Sources/usb_descriptor.c:841-857 | every endpoint table entry keeps number, pipe and direction and gets the size of its direction |
| UsbDescriptor.Descriptors.SetDeviceSpeed | MCU_Test/Sources/usb_descriptor.c:768-859 | the whole function: descriptor and tables, well-formedness kept, and every table entry has the size that the record of its endpoint announces |
| UsbDescriptor.SetSpeedKeepsRecords | MCU_Test/Sources/usb_descriptor.c:808-840 | the result parses into exactly the patched records and has the same length |
| UsbDescriptor.OnlySizesChange | MCU_Test/Sources/usb_descriptor.c:813-838 | every byte but packet sizes, and the interval of endpoint 1, stays |
| UsbDescriptor.LastSpeedWins | MCU_Test/Sources/usb_descriptor.c:785-840 | setting two speeds in turn is setting the second; the same speed twice changes nothing |
| UsbDescriptor.AnnouncedSizes | MCU_Test/Sources/usb_descriptor.c:813-838 | after the call every endpoint record announces the size of its kind and direction, the notification endpoint with its interval |
| UsbDescriptor.TablesAgree | MCU_Test/Sources/usb_descriptor.c:813-857 | a record that matches a table entry by number and direction announces the size that entry gets |
| UsbDescriptor.ShippedTable | MCU_Test/Sources/usb_descriptor.c:128-221 | the shipped 67 bytes are well formed and in full-speed form; high speed changes byte 43 from 8 to 7 and nothing else |
| UsbDescriptor.SerialiseParse | MCU_Test/Sources/usb_descriptor.c:811-840 | the records of a well-formed table put together again are the table |
| UsbDescriptor.ParseSerialise | MCU_Test/Sources/usb_descriptor.c:811-840 | valid records are found again by their lengths |
| Reciprocal.RoundUndershoots | MQX_OS/BSP/platform/CMSIS/Include/arm_math.h:583-590 | one Newton round never reaches the target, so no clip saturates |
| Reciprocal.RoundSquaresResidual | MQX_OS/BSP/platform/CMSIS/Include/arm_math.h:583-590 | one round takes a residual r to at most r^2 over the target plus 3 w (under 2^33 in q31) |
| Reciprocal.TwoRoundsConverge | MQX_OS/BSP/platform/CMSIS/Include/arm_math.h:581-590 | the composed bound after both rounds, for every seed |
| Reciprocal.Q31Accuracy | MQX_OS/BSP/platform/CMSIS/Include/arm_math.h:578-593 | a seed good to one part in 64 gives a residual below 34 * 2^32 out of 2^61 |
| Reciprocal.Q15Accuracy | MQX_OS/BSP/platform/CMSIS/Include/arm_math.h:626-643 | in q15 such a seed gives a residual below 98403 out of 2^29 |
| Reciprocal.KnownRounds | MQX_OS/BSP/platform/CMSIS/Include/arm_math.h:581-590 | both rounds in numbers for an input of three quarters |
| Reciprocal.MiddlesAreGood | MQX_OS/BSP/platform/CMSIS/Include/arm_math.h:574-579 | the reciprocals of the middles of the 64 cells make a table good to one part in 64 |
| Reciprocal.MachineRoundQ31IsRound | MQX_OS/BSP/platform/CMSIS/Include/arm_math.h:585-589 | no conversion of the q31 loop body loses anything |
| Reciprocal.MachineRoundQ15IsRound | MQX_OS/BSP/platform/CMSIS/Include/arm_math.h:636-639 | no conversion of the q15 loop body loses anything |
| Reciprocal.NonnegativeSeedIsUsable | MQX_OS/BSP/platform/CMSIS/Include/arm_math.h:578-579 | every nonnegative table entry is a usable seed |
| Reciprocal.NormalisingShiftIsUnique | MQX_OS/BSP/platform/CMSIS/Include/arm_math.h:562-572 | the normalising shift is determined by the input |
| Reciprocal.RecipQ31 | MQX_OS/BSP/platform/CMSIS/Include/arm_math.h:552-598 | the q31 routine: normalises, reads entry k for a shifted input from 64 + k to 65 + k units, its output is two rounds from there and below the target; a table good to one part in 64 gives a residual below 34 * 2^32 for every input |
| Reciprocal.RecipQ15 | MQX_OS/BSP/platform/CMSIS/Include/arm_math.h:603-648 | the q15 routine, likewise |
| Reciprocal.CountLeadingZeros | MQX_OS/BSP/platform/CMSIS/Include/arm_math.h:530-544 | the software loop finds the shift that brings the top bit to bit 31 |
| Pid.PidQ31.Process | MQX_OS/BSP/platform/CMSIS/Include/arm_math.h:5134-5164 | one call updates the state as the wrapping step does |
| Pid.OutputIsWrappedIdeal | MQX_OS/BSP/platform/CMSIS/Include/arm_math.h:5134-5164 | over every run the output is the ideal total reduced to 32 bits, however often anything wrapped before |
| Pid.IdealTracksPositional | MQX_OS/BSP/platform/CMSIS/Include/arm_math.h:5043-5047 | the ideal total is the positional controller, short by less than one unit a sample |
| Pid.RefinesPositional | MQX_OS/BSP/platform/CMSIS/Include/arm_math.h:5043-5164 | the output is the ideal total if and only if that fits 32 bits, and then refines the positional controller |
| Pid.RefinesWithin | MQX_OS/BSP/platform/CMSIS/Include/arm_math.h:5043-5164 | bounds on the positional value and the number of samples within which the output refines it, and outside which it is certain to have wrapped |
| Pid.ScaledInputStillWraps | MQX_OS/BSP/platform/CMSIS/Include/arm_math.h:5127-5131 | five samples within the documented scaling (2^29 - 1 each) whose positive control value comes out negative |
| Pid.ScaledSumNeverWraps | MQX_OS/BSP/platform/CMSIS/Include/arm_math.h:5127-5151 | with that scaling only the final addition can wrap |
| Interpolation.LinearQ15IsLinear | MQX_OS/BSP/platform/CMSIS/Include/arm_math.h:5895-5939 | the q15 routine is the interpolation of its input read as unsigned, with no overflow |
| Interpolation.LinearQ7IsLinear | MQX_OS/BSP/platform/CMSIS/Include/arm_math.h:5955-6001 | the q7 routine is the same interpolation, clamped below zero, with no overflow |
| Interpolation.LinearRange | MQX_OS/BSP/platform/CMSIS/Include/arm_math.h:5918-5935 | every output lies in its cell, up to one unit below |
| Interpolation.AdjacentInputs | MQX_OS/BSP/platform/CMSIS/Include/arm_math.h:5908-5935 | neighbouring inputs differ by at most one across cells and into the final clamp |
| Interpolation.Lipschitz | MQX_OS/BSP/platform/CMSIS/Include/arm_math.h:5895-5939 | the output moves no faster than the input |
| Interpolation.Monotone | MQX_OS/BSP/platform/CMSIS/Include/arm_math.h:5895-5939 | a nondecreasing table gives a nondecreasing function |
| Interpolation.ExactAtKnot | MQX_OS/BSP/platform/CMSIS/Include/arm_math.h:5928-5935 | a table position returns its entry if and only if the entry is not positive or is the last |
| Interpolation.CellError | MQX_OS/BSP/platform/CMSIS/Include/arm_math.h:5928-5935 | the result falls short of the exact rational value by the missing weight of the first entry and less than one unit of rounding |
| Interpolation.LinearQ15Error | MQX_OS/BSP/platform/CMSIS/Include/arm_math.h:5895-5939 | the q15 routine in terms of its input alone: which entries, which fraction, and the two-sided distance to the line between them |
| Interpolation.LinearQ7Error | MQX_OS/BSP/platform/CMSIS/Include/arm_math.h:5955-6001 | the q7 routine, likewise |
| Interpolation.Q7MonotoneIff | MQX_OS/BSP/platform/CMSIS/Include/arm_math.h:5968-5972 | over all inputs the q7 function of a nondecreasing table is nondecreasing if and only if the first entry is not positive (or alone) |
| Interpolation.Q15MonotoneIff | MQX_OS/BSP/platform/CMSIS/Include/arm_math.h:5908-5917 | over all inputs, negative ones included, and nondecreasing tables of every supported size, the q15 function is nondecreasing if and only if the table is constant and not positive (or a single entry) |
| Interpolation.CellQ31NoOverflow | MQX_OS/BSP/platform/CMSIS/Include/arm_math.h:5867-5874 | neither product, nor the sum, nor the doubling overflows |
| Interpolation.Q31Error | MQX_OS/BSP/platform/CMSIS/Include/arm_math.h:5867-5874 | the result is within five units below and one above the exact rational value |
| Interpolation.CellQ31Range | MQX_OS/BSP/platform/CMSIS/Include/arm_math.h:5867-5874 | a q31 cell lies between its ends, each brought down as a start of a cell is, and two units below |
| Interpolation.Q31FallsAtMostTwo | MQX_OS/BSP/platform/CMSIS/Include/arm_math.h:5833-5878 | over all inputs, read as unsigned, the q31 function of a nondecreasing table falls by at most two units |
| Interpolation.Q31ConstantFalls | MQX_OS/BSP/platform/CMSIS/Include/arm_math.h:5833-5878 | on the constant table -1 it falls from -2 to -4 between the first two inputs |
| Interpolation.LinearQ31Cases | MQX_OS/BSP/platform/CMSIS/Include/arm_math.h:5833-5878 | which entry or cell the q31 routine uses for every input |
| Bilinear.BilinearQ7IsValue | MQX_OS/BSP/platform/CMSIS/Include/arm_math.h:7372-7438 | at every point whose reads fall inside the data the routine is the four-corner weighted value, and zero outside the table |
| Bilinear.AlwaysReadableIff | MQX_OS/BSP/platform/CMSIS/Include/arm_math.h:7397-7417 | the routine's own test keeps all its reads inside the data if and only if rows + columns^2 is less than the number of entries |
| Bilinear.SquareTableIsOverrun | MQX_OS/BSP/platform/CMSIS/Include/arm_math.h:7397-7417 | a 3 by 3 table is read out of bounds at its last corner |
| Bilinear.MachineValueIsValue | MQX_OS/BSP/platform/CMSIS/Include/arm_math.h:7419-7436 | no product, sum or cast overflows |
| Bilinear.ValueRange | MQX_OS/BSP/platform/CMSIS/Include/arm_math.h:7419-7436 | the value lies between the smallest corner less one and the largest corner |
| Bilinear.ValueError | MQX_OS/BSP/platform/CMSIS/Include/arm_math.h:7419-7436 | the result is within one unit of rounding and 1/4096 unit of missing weight of the exact bilinear value |
| Bilinear.BilinearQ7Error | MQX_OS/BSP/platform/CMSIS/Include/arm_math.h:7372-7438 | the routine in terms of its point alone: which four entries, which fractions, and the distance to their exact bilinear value |
| Bilinear.AdjacentFirst | MQX_OS/BSP/platform/CMSIS/Include/arm_math.h:7388-7436 | one step of the first input moves the value by at most one, also across cells |
| Bilinear.AdjacentSecond | MQX_OS/BSP/platform/CMSIS/Include/arm_math.h:7393-7436 | one step of the second input, likewise |
| Bilinear.ValueIsSymmetric | MQX_OS/BSP/platform/CMSIS/Include/arm_math.h:7419-7433 | the formula treats both axes alike |
| Circular.CircularWrite | MQX_OS/BSP/platform/CMSIS/Include/arm_math.h:6260-6298 | the written buffer and the stored 16-bit offset, for every stride that stays inside; for a stride up to the length the offset is (start + n inc) mod L |
| Circular.CircularRead | MQX_OS/BSP/platform/CMSIS/Include/arm_math.h:6305-6355 | the destination and the final offset, likewise |
| Circular.OffsetIsModular | MQX_OS/BSP/platform/CMSIS/Include/arm_math.h:6288-6290 | one subtraction per step keeps the offset reduced |
| Circular.RoundTripIff | MQX_OS/BSP/platform/CMSIS/Include/arm_math.h:6260-6355 | writing and reading back returns every block if and only if no two accesses collide |
| Circular.NoCollisionIff | MQX_OS/BSP/platform/CMSIS/Include/arm_math.h:6288-6290 | accesses do not collide if and only if n gcd(L, inc) <= L |
| Circular.ShortBlockDoesNotCollide | MQX_OS/BSP/platform/CMSIS/Include/arm_math.h:6260-6355 | a block with n inc <= L does not collide |
| Circular.UntouchedStays | MQX_OS/BSP/platform/CMSIS/Include/arm_math.h:6279-6294 | elements no access touches keep their value |
| Circular.UnreadStays | MQX_OS/BSP/platform/CMSIS/Include/arm_math.h:6329-6350 | a read leaves destination positions it does not come to alone |
| Circular.SinkIsModular | MQX_OS/BSP/platform/CMSIS/Include/arm_math.h:6334-6340 | a destination whose stride divides its start and its length is a circle |
| Circular.SinkRunsPast | MQX_OS/BSP/platform/CMSIS/Include/arm_math.h:6334-6340 | one that does not meet its end exactly runs past it |
| Circular.LastWriteWins | MQX_OS/BSP/platform/CMSIS/Include/arm_math.h:6279-6294 | an element holds what the last access to it stored |
| Circular.OffsetsAgreeIff | MQX_OS/BSP/platform/CMSIS/Include/arm_math.h:6296-6297 | the stored write offset is right from every 16-bit start after any number of steps if and only if L <= 2^16 or the stride is L |
| Circular.OffsetIsCutOff | MQX_OS/BSP/platform/CMSIS/Include/arm_math.h:6296-6297 | one step from 65535 in a ring of 70000 stores 0 |
| Saturation.ClipQ63ToQ31IsClamp | MQX_OS/BSP/platform/CMSIS/Include/arm_math.h:469-474 | the sign comparison is saturation |
| Saturation.ClipQ31ToQ15IsClamp | MQX_OS/BSP/platform/CMSIS/Include/arm_math.h:499-504 | the sign comparison is saturation |
| Saturation.Mult32x64IsFloor | MQX_OS/BSP/platform/CMSIS/Include/arm_math.h:510-516 | the two partial products give the exact floored high part |
| Saturation.Ssat | MQX_OS/BSP/platform/CMSIS/Include/arm_math.h:656-690 | the software __SSAT saturates to y bits |
| Saturation.SaturatedIsNearest | MQX_OS/BSP/platform/CMSIS/Include/arm_math.h:656-690 | the saturated value is the nearest one of the field |
| Saturation.QAdd8 | MQX_OS/BSP/platform/CMSIS/Include/arm_math.h:704-726 | four lane-wise saturated sums |
| Saturation.QSub8 | MQX_OS/BSP/platform/CMSIS/Include/arm_math.h:731-752 | four lane-wise saturated differences |
| Saturation.QAdd16 | MQX_OS/BSP/platform/CMSIS/Include/arm_math.h:761-779 | two lane-wise saturated sums |
| Saturation.QSub16 | MQX_OS/BSP/platform/CMSIS/Include/arm_math.h:807-824 | two lane-wise saturated differences |
| Saturation.Lanes8Determine | MQX_OS/BSP/platform/CMSIS/Include/arm_math.h:720-722 | the four lanes determine the word |
| BitReverse.ReverseBits | MQX_OS/BSP/platform/CMSIS/Include/core_cmInstr.h:193-207 | bit i of the result is bit 31 - i of the input |
| BitReverse.ReverseTwice | MQX_OS/BSP/platform/CMSIS/Include/core_cmInstr.h:193-207 | reversing twice is the identity |
| BitReverse.ReverseIsUnique | MQX_OS/BSP/platform/CMSIS/Include/core_cmInstr.h:193-207 | the reversal property determines the result |
| Nvic.Controller.Set | MQX_OS/BSP/platform/CMSIS/Include/core_cm0plus.h:750-760 | the read-modify-write of a word updates one entry of the map of priorities |
| Nvic.Controller.Get | MQX_OS/BSP/platform/CMSIS/Include/core_cm0plus.h:774-783 | reads that map |
| Nvic.SetThenGet | MQX_OS/BSP/platform/CMSIS/Include/core_cm0plus.h:750-783 | a write is seen modulo 2^bits by reads of the same interrupt and by no other |
| Nvic.BytesAfterSet | MQX_OS/BSP/platform/CMSIS/Include/core_cm0plus.h:750-760 | after a write the interrupt's own byte holds the priority, cut and moved to the top, and every other byte what it held |
| Nvic.GetIs | MQX_OS/BSP/platform/CMSIS/Include/core_cm0plus.h:774-783 | which bits of which byte of which word a read returns |
| Nvic.RegistersRefineMap | MQX_OS/BSP/platform/CMSIS/Include/core_cm0plus.h:672-783 | over any sequence of writes the packed registers are a plain map |
| Nvic.WithByteThenByteAt | MQX_OS/BSP/platform/CMSIS/Include/core_cm0plus.h:757-758 | writing one byte of a word leaves the other three alone |
| Nvic.WordIndexIs | MQX_OS/BSP/platform/CMSIS/Include/core_cm0plus.h:672-674 | the index macros stay inside their register bank |
| RegisterBytes.PriorityByteHolds | MQX_OS/BSP/platform/CMSIS/Include/core_cm4.h:1629-1660 | shifting a priority into its register byte and back keeps it modulo 2^bits |
| RegisterBytes.PriorityByteIs | MQX_OS/BSP/platform/CMSIS/Include/core_cm4.h:1629-1637 | the byte is (priority mod 2^bits) 2^(8 - bits) |
| PriorityCodec.WidthsAddUp | MQX_OS/BSP/platform/CMSIS/Include/core_cm4.h:1677-1682 | the two fields share the implemented bits exactly, for every grouping |
| PriorityCodec.WidthsAre | MQX_OS/BSP/platform/CMSIS/Include/core_cm4.h:1677-1682 | the widths count the implemented bits of the register byte above bit `group`, and the others |
| PriorityCodec.DecodeEncode | MQX_OS/BSP/platform/CMSIS/Include/core_cm4.h:1675-1714 | decoding an encoding gives both values reduced to their widths |
| PriorityCodec.EncodeDecode | MQX_OS/BSP/platform/CMSIS/Include/core_cm4.h:1675-1714 | encoding a decoded register value gives it back |
| PriorityCodec.EncodeIsLexicographic | MQX_OS/BSP/platform/CMSIS/Include/core_cm4.h:1684-1687 | encodings order by preemption first, then sub-priority |
| PriorityCodec.EncodingSurvivesRegister | MQX_OS/BSP/platform/CMSIS/Include/core_cm4.h:1629-1714 | an encoding survives the priority register and decodes |
| PriorityCodec.Registers.SetPriority | MQX_OS/BSP/platform/CMSIS/Include/core_cm4.h:1629-1637 | stores one byte and no other |
| PriorityCodec.Registers.GetPriority | MQX_OS/BSP/platform/CMSIS/Include/core_cm4.h:1651-1660 | loads that byte's implemented bits |

## Left out

- Reciprocal.RecipQ31: positive inputs only (for zero the software count of leading zeros does not end); a seed with norm * seed of 2^62 or more, which needs a negative table entry, is not described.
- Reciprocal.RecipQ15: positive inputs only, and usable seeds, as for q31.
- Saturation.Ssat: widths 1 to 31; at 32 the limit overflows its variable.
- Circular.CircularWrite: source and ring are different arrays, and accesses must fall inside them, which for a negative stride the routine does not ensure.
- Circular.RoundTripIff: a destination that starts at its base and does not wrap, and a unit source stride.
- Bilinear.BilinearQ7IsValue: nothing is said of the value where the reads leave the data (AlwaysReadableIff).
- Nvic.Controller.Set: interrupt numbers -8 to 31, those whose word exists.
- UartRingSteps.DeliveredIsPrefix: copies that go upwards byte by byte, and runs without a disable, in which an arriving byte finds room and a read is not requested on an empty ring.
- J1708Link.FramesAreMessages: that a disabled FPGA receives nothing and forgets the bytes received since the last length is an assumption about the FPGA, whose logic is not part of this model; LengthsAreOfMessages does not need it.
- J1708Link.ExactlyOnePlace: runs in which no read leaves its message; what an overrun does to the kernel's own fields is not modelled, only that it may do anything to pool and messages.
- J1708Reset.EnabledAloneIff: a failed register write is taken to have changed nothing, here and in the link; a transfer that the FPGA takes but that is reported as failed is not modelled. The same goes for a failed write of a length, and for a byte stored just as its receive times out.
- J1708LinkRuns.ForwardedIsPrefix: runs in which an arriving byte finds room, a read is not requested on an empty ring, and no reset has cleared the write index.
- The pointer to the sent message that Rx keeps for a hardware check, and sends of the Rx task to the Tx task's own queue.
- UsbDescriptor.Descriptors.Walk: tables whose records have at least two bytes, seven for an endpoint, and fill the table exactly.
- The USB stack headers are not part of this model: endpoint type 5, the byte-order macros and the pipe types are those of the USB 2.0 specification, and the attribute byte of the shipped table is a parameter.
- I2C, UART, events, delays and the RTOS: results of calls are arguments or parts of an action; waiting for the link to be enabled only removes runs.
- LED, version and status registers, and FPGA_read_J1708_status with its inverted null test: no state of their own.
- clip_q63_to_q15, clip_q31_to_q7, the exchanging and halving lane operations, and the floating-point, q7 and f32 variants of the modelled routines: same shape, or no contract to prove.
- Board set-up, tester, uut, virtual_com, ADC, power and accelerometer code: short branches and hardware plumbing.
