# Verified model of the TS-7200 emulator's peripherals

This project models the stateful core of a TS-7200 emulator (`src/devices/`, `src/memory/` and
`src/sys/ts7200/`) in Dafny and proves what the code relies on.

`dafny verify dfyconfig.toml` checks everything.

## What is modelled

**UART.** A mutex-guarded register state is shared by the main thread, an input-buffer thread and an
output-buffer thread, with unlocked channels on both sides.
`UartState.dfy` says what each critical section does, `Uart.dfy` is the device as classes updated in
place, and `UartProtocol.dfy` is the concurrent system as a step relation: a program counter for each
thread, the owner of the lock, the channel contents, and a log of what happened. A step holds the lock
throughout or does one operation on one channel. The receive of the output thread happens outside the
lock, and sending a byte and counting it are two steps, so that receive can fall between them. The
edges a refresh announces are separate steps too.
`UartInvariants.dfy` proves what every step keeps, `UartTheorems.dfy` what follows for every reachable
state, `UartProgress.dfy` that the protocol comes to rest and where, `LineControl.dfy` what the line
control words are in terms of what was written, `UartHistory.dfy` what flags, levels and registers are
in terms of the writes, the bytes and the thread steps of a run, and `IoThreads.dfy` has the byte
forwarding loops.

**Timer.** `Timer.dfy` is the lazily updated counter, `TimerLaws.dfy` proves that the laziness cannot
be seen (or exactly when it can), and `TimerSchedule.dfy` compares the interrupter thread's own schedule
with the wraps of the counter. `TimerUnits.dfy` joins a timer, its interrupter and the messages between
them, with their histories from power-on, and `TimerValues.dfy` says what the registers read in terms
of the accesses made.

**Interrupt fabric and main loop.** `Vic.dfy` is one vectored controller, `VicManager.dfy` the
daisy-chained pair, `VicHistory.dfy` what both read after any history of writes and messages, and
`Fabric.dfy` puts two or three UARTs with their threads, the three timers with
theirs, the interrupt bus and the controllers into one transition system; `FabricHistory.dfy` carries the
histories of the devices to the status registers of the controllers. `Syscon.dfy` is the system
controller with its software lock and power state. `Ts7200.dfy` is the main loop with atomic steps, as a
class and as functions. `Machine.dfy` is everything together, with steps as fine as a single access or a
single receive from the bus, and `MachineRefinement.dfy` proves that it refines the main loop with atomic
steps.

**Memory.** `Ram.dfy` is RAM with its initialization shadow and `MemoryAdapter.dfy` the shim through
which the processor sees it. `Memory.dfy`, `Bits.dfy`, `LittleEndian.dfy` and `Arithmetic.dfy` hold
shared types and laws. Register words are integers below 2^32; `Bits.dfy` defines the bitwise
operations on them by recursion over the binary digits.

Where the source is a device object whose methods update its fields, the model has a class; its methods
are proved against functions on the register values, and the laws are proved about those functions.

## What turned out not to hold

Each of these is a lemma with the exact condition under which the expected behaviour does hold.

- A periodic counter that was reloaded and has reached zero is shown as the load value, so how the time
  is split between accesses can be seen: `TimerLaws.SplitShowsSameExactly`, `TimerLaws.SplitCanShowAnother`,
  `TimerLaws.BatchShowsTicksExactly`. Everything agrees modulo the load value.
- The ticks of an update are truncated to 32 bits. This never matters in free-running mode, and in
  periodic mode exactly when what is cut off is not a multiple of the load value:
  `TimerLaws.TruncationIsHarmlessExactly`, `TimerLaws.TruncationCanHarm`.
- At one moment, the interrupts sent and the wraps of the counter need not be equal: the write that enables a
  timer reads the clock once for the counter and again for the interrupter, which therefore runs behind
  (`TimerSchedule.InterrupterCanLag`), and at 508 kHz its period is rounded down, so that it can also lead
  (`TimerSchedule.InterrupterCanLead`). `TimerSchedule.ScheduleAgreesWithCounter` says for both clocks
  exactly when a caught-up interrupter has sent no fewer, no more, and just as many interrupts as there were
  wraps; `TimerSchedule.KthInterruptFollowsKthWrap` bounds the difference in time.
- Changing the mode of an enabled timer does not reach the interrupter, so a counter can reload periodically
  without interrupts: `TimerUnits.ScheduledWhenCountingExactly`, `TimerUnits.CountsWithoutInterrupts`.
- A timer that is switched to periodic counting without a load value is stuck: every later access fails,
  even the one that would disable it, although the write that brought it there may have succeeded:
  `TimerLaws.StuckForever`, `TimerLaws.StuckExactly`, `TimerLaws.TimerSticks`, `TimerLaws.TimerCanStick`.
- A line control setting can make the UART divide by zero: `UartState.BaudDefinedExactly`,
  `LineControl.HighWriteIsDefinedExactly`, `LineControl.HighWriteCanDivideByZero`. The middle word is shifted
  by 32 bits, so only a zero low byte in it is usable.
- A first write of LinCtrlHigh changes the baud rate the device started with, because the latch was
  never given it: `UartState.FirstHighWriteChangesRate`. In any run such a write keeps the rate exactly
  when the value last written to LinCtrlLow gives the same one as the active value:
  `LineControl.HighWriteKeepsRateExactly`.
- The FIFO counts can exceed the current FIFO size: `UartTheorems.TxExceedsFifoExactly`,
  `UartTheorems.RxExceedsFifoExactly`, `UartTheorems.TxCanExceedFifo`, `UartTheorems.RxCanExceedFifo`. The
  bound 16 always holds, for the receive buffer unless it was ever made infinite.
- Only the last memory exception of an instruction is looked at, so a fatal one can go unnoticed:
  `Ts7200.StopsExactly`, `Ts7200.FatalExceptionCanBeMasked`.
- A halted system with a request pending still waits for the bus when it steps in blocking mode:
  `Ts7200.PendingRequestWakesExactly`, `Ts7200.PendingRequestCanWait`.

Where comments and code disagree, the model follows the code: the comments on `fiq` and `irq` in
`src/devices/vic/vicmanager.rs` are swapped, and the one on `step` in `src/sys/ts7200/mod.rs` promises a
Boolean although an optional event is returned.

## Model

| member | source | states |
|---|---|---|
| `Machine.CheckMissesNoLine` | src/sys/ts7200/mod.rs:189-216 | in every run of the whole machine, as a drain ends, a UART that holds up an enabled line, or a timer with an uncleared timeout, has its exception raised, and a halted machine runs again |
| `Machine.CheckedStatusIsCurrent` | src/devices/vic/mod.rs:126-130 | in every run, as a drain ends, the status registers show the level of every line of every UART whose lock is free, and every uncleared timeout |
| `Machine.WokenBeforeRunning` | src/sys/ts7200/mod.rs:264-269 | in every run, between a moment in a low-power state and a later one in which the machine runs, a drain ended with an enabled, active request that the processor was told of |
| `Machine.HaltNeedsTheHandshake` | src/devices/syscon.rs:86-97 | the machine is halted exactly when accesses of the same run made the unlock, configure and enter handshake, in order, and it was not woken since |
| `Machine.FabricIsReachable` | src/sys/ts7200/mod.rs:220-275 | the interrupt fabric of every machine run is one the fabric alone can reach |
| `Machine.EndsExactly` | src/sys/ts7200/mod.rs:152-184 | in the machine, an instruction is the last one iff the exception set aside is not one of the logged ones, and leads to a check of the bus otherwise |
| `Machine.UnmappedAccessStops` | src/sys/ts7200/mod.rs:152-184 | for every device of the machine, an access is unexpected iff it is at an offset without a register and nothing else fails first; unless a later access fails, the machine then stops |
| `MachineRefinement.MachineRefinesMainLoop` | src/sys/ts7200/mod.rs:220-275 | every run with other threads between accesses and receives is matched by one run of the main loop with atomic steps: at every moment between steps, a prefix of it has the same state, the same number of steps, and has raised the same exceptions |
| `MachineRefinement.SimulateEndCheck` | src/sys/ts7200/mod.rs:189-216 | the matching atomic step raises the same exceptions |
| `FabricHistory.UartStatusOverRun` | src/sys/ts7200/mod.rs:189-208 | in every run of the fabric, bus drained and lock free, the raw, IRQ and FIQ status bits where a UART line is wired to are what the control and line control writes, the byte counts, busy changes and timeouts of that UART make due, masked and routed by what was written to that controller |
| `FabricHistory.TimerStatusOverRun` | src/devices/vic/vicmanager.rs:44-52 | the same for the timers: the status bits show a timeout announced after the last clear, masked and routed by what was written |
| `FabricHistory.LinesAreWiredTo` | src/sys/ts7200/mod.rs:321-338 | the controller and bit of each UART and timer line, as numbers |
| `FabricHistory.TimerWidths` | src/sys/ts7200/mod.rs:324-326 | in every run timers 1 and 2 are 16 bits wide and timer 3 is 32 |
| `Fabric.PendingMessagesGiveTheLevel` | src/sys/ts7200/mod.rs:189-208 | in every reachable state of the whole system, delivering the pending messages gives each UART line its flag, and with the UART's lock free the level its registers give |
| `Fabric.SourcesAreDistinct` | src/devices/vic/interrupts.rs:39-50 | no two lines of UARTs or timers share a source |
| `Fabric.RunIsCoherent` | src/sys/ts7200/mod.rs:321-338 | every run, with two or three UARTs and the three timers, keeps every line coherent throughout |
| `Fabric.PendingMessagesGiveTheTimeout` | src/devices/timer.rs:67-73 | in every reachable state, delivering the pending messages leaves a timer line up exactly when a timeout was announced after the last write of the clear register |
| `Fabric.StatusRegistersShowTheLevels` | src/devices/vic/mod.rs:126-130 | with the bus empty, the IRQ and FIQ status registers show every UART level and every uncleared timeout, or the software interrupt, masked by enable and routed by select |
| `Fabric.TimersKeepTheirSchedule` | src/devices/timer.rs:45-75 | for every timer of every reachable fabric, from its own enabling write on, the value read and the timeouts announced since agree as in the schedule theorem |
| `Fabric.TimersAreScheduledExactly` | src/devices/timer.rs:266-295 | the interrupter of every timer of every reachable fabric has a deadline, now or once it has received what is on the way, exactly when the timer is enabled and was enabled periodic with a load value |
| `UartHistory.FlagsOverRun` | src/devices/uart/device.rs:148-190 | in every run, lock free: tx is asserted iff bit 5 of the last control word is set and twice the outstanding bytes is at most 16 or 1, by bit 4 of the last activated high word; rx iff bit 4 and twice the unread bytes is at least that; combined iff either, or bit 6 and a timeout, or bit 3 and a busy change since the clearing write |
| `UartHistory.IntIdReadOverRun` | src/devices/uart/device.rs:620-627 | in every run a read of the interrupt identification register gives those four conditions as bits 3 to 0 |
| `UartHistory.FlagReadOverRun` | src/devices/uart/device.rs:607-619 | in every run a read of the flag register gives emptiness and fullness by the outstanding and unread bytes, and busy or clear-to-send by whether a byte was begun since the count was last zero |
| `UartHistory.BusyExactly` | src/devices/uart/device.rs:300-326 | in every run the transmitter is busy iff the output thread began a byte after the last step that took the count to zero |
| `UartHistory.BusyBetweenBytes` | src/devices/uart/device.rs:318-328 | the end of a byte that leaves others outstanding keeps the transmitter busy and records no modem change |
| `UartHistory.TimeoutExactly` | src/devices/uart/device.rs:250-256 | in every run the timeout condition is set iff the input thread marked a timeout with bytes unread and the receive FIFO was never empty since |
| `UartHistory.DroppedExactly` | src/devices/uart/device.rs:237-249 | in every run a received byte is dropped iff the unread bytes fill the FIFO and it was not made infinite |
| `UartHistory.AcceptedExactly` | src/devices/uart/device.rs:642-655 | in every run a data write is accepted, as its low byte, iff fewer bytes are outstanding than the FIFO holds |
| `UartTheorems.CountNeverUnderflows` | src/devices/uart/device.rs:318-328 | in every reachable state of every interleaving, the output thread finds a positive count when it takes a byte off, and the count with a pending increment is the queued bytes plus the one in flight |
| `UartTheorems.AcceptedBytesAreDelivered` | src/devices/uart/device.rs:402-427 | accepted bytes are always delivered ++ held ++ queued, in order; once the drop is complete the writer has put out exactly the accepted sequence, even if the exit signal overtook queued bytes |
| `UartTheorems.ReceivedBytesAreConserved` | src/devices/uart/device.rs:234-256 | bytes read plus buffered are the received bytes that were not dropped, in order; every arrived byte is handled, held or queued; the status register shows an overrun exactly when a byte was dropped since it was last written |
| `UartTheorems.NoTimeoutIsLost` | src/devices/uart/device.rs:210-257 | an input thread parked without a timeout has no unread byte unless the timeout condition is set, and then an enabled timeout interrupt has the combined line asserted |
| `UartTheorems.FlagsAreFreshAtRelease` | src/devices/uart/device.rs:167-190 | whenever the lock is free, each asserted flag is its masked status bit, and an asserted rx or tx line has the combined line asserted |
| `UartTheorems.AnnouncementsAlternate` | src/devices/uart/device.rs:170-185 | on each line the bus sees up, down, up, down, starting with up, and the last announcement is the flag |
| `UartTheorems.FlagBits` | src/devices/uart/device.rs:607-629 | the meaning of every bit of the flag register |
| `UartTheorems.FlagRegisterIsConsistent` | src/devices/uart/device.rs:607-629 | no read of the flag register shows an empty transmit FIFO with a busy transmitter or without clear-to-send |
| `UartTheorems.FifosAreBounded` | src/devices/uart/device.rs:242-248 | both FIFOs stay within 16 bytes through every reconfiguration (the receive one unless it was ever made infinite) |
| `UartTheorems.ModemChangesAreBusyChanges` | src/devices/uart/device.rs:300-326 | in every run, a modem change is pending exactly when the transmitter went busy or idle in some step after the last write of the interrupt clear register |
| `UartTheorems.TxExceedsFifoExactly` | src/devices/uart/device.rs:143 | the only step that takes the transmit count above the FIFO size is turning the FIFOs off with more than one byte counted |
| `UartTheorems.RxExceedsFifoExactly` | src/devices/uart/device.rs:143 | the same for the receive buffer, where the other such step is storing a byte in a full buffer that was made infinite |
| `UartTheorems.TxCanExceedFifo` | src/devices/uart/device.rs:642-655 | a reachable state with two bytes counted and a FIFO size of one |
| `UartTheorems.WriteAsWhole` | src/devices/uart/device.rs:638-707 | the protocol steps of a register write, undisturbed, leave the registers, bytes and edges that the write method leaves |
| `UartTheorems.ReadAsWhole` | src/devices/uart/device.rs:551-636 | the same for a register read |
| `UartTheorems.SectionAsWhole` | src/devices/uart/device.rs:167-190 | any critical section, stepped to the release of the lock, ends with fresh flags and all edges announced |
| `UartTheorems.RxCanExceedFifo` | src/devices/uart/device.rs:242-248 | a reachable state with two bytes buffered and a FIFO size of one |
| `UartTheorems.StepOnModemChange` | src/devices/uart/device.rs:300-326 | step by step, no other step records a modem change, none is missed, and only the clearing write clears it |
| `UartInvariants.StepKeepsCountInv` | src/devices/uart/device.rs:644-652 | every step keeps count plus pending increment equal to queued plus in-flight plus drained bytes, and a busy transmitter with a positive count |
| `UartInvariants.StepKeepsDeliveryInv` | src/devices/uart/device.rs:291-336 | every step keeps the accepted bytes equal to what is delivered, held and queued, in order |
| `UartInvariants.StepKeepsReceiveInv` | src/devices/uart/device.rs:237-249 | every step keeps the receive conservation and the meaning of overrun |
| `UartInvariants.StepKeepsTimeoutInv` | src/devices/uart/device.rs:250-256 | every step keeps the timeout condition tied to unread bytes and to where the input thread is parked |
| `UartInvariants.StepKeepsEdgeInv` | src/devices/uart/device.rs:170-185 | every step keeps each line's announcements alternating and ending in its flag |
| `UartInvariants.RunSatisfiesInv` | src/devices/uart/device.rs:201-345 | all of these hold in every state of every run |
| `UartProgress.InternalRunsEnd` | src/devices/uart/device.rs:291-336 | left alone, all threads together take at most a bounded number of steps, however scheduled |
| `UartProgress.AtRestAllIsDone` | src/devices/uart/device.rs:402-427 | a running device comes to rest with an empty, idle transmitter and all bytes delivered and handled; a dropping one rests only once the drop is complete and everything is out |
| `UartProgress.TransmitterDrains` | src/devices/uart/device.rs:300-331 | while no byte is accepted, whatever else happens, the output thread takes at most a bounded number of steps |
| `UartProgress.DrainedTransmitterIsIdle` | src/devices/uart/device.rs:320-326 | an output thread with no step left, the lock free, means count zero and not busy |
| `TimerSchedule.InterrupterLoop` | src/devices/timer.rs:45-75 | the loop's final state, and one message on the bus for each timeout |
| `TimerSchedule.SentIsPeriodsPassed` | src/devices/timer.rs:55-73 | an interrupter has sent at most one interrupt for each period passed since its base time, and exactly as many once caught up |
| `TimerSchedule.WrapsFromLoad` | src/devices/timer.rs:169-176 | from the load value, the counter reaches zero once every load value of ticks |
| `TimerSchedule.WrapTimeIsFirst` | src/devices/timer.rs:149-151 | the wrap time is the first moment at which the k-th wrap is complete |
| `TimerSchedule.ScheduleAgreesWithCounter` | src/devices/timer.rs:45-75 | at one moment after the edge, over any accesses that keep enable, mode and clock: the value read is the tick-by-tick counter, a zero possibly as the load value; the interrupts sent exceed the wraps by no more than a nanosecond for each allows; and for both clocks, once caught up, exactly when they are no fewer, no more, and as many as the wraps |
| `TimerSchedule.KthInterruptFollowsKthWrap` | src/devices/timer.rs:282-289 | the k-th interrupt is sent no earlier than its deadline, which follows the k-th wrap by the time between the two clock readings, less at most k nanoseconds, and less none at 2 kHz |
| `TimerSchedule.InterrupterCanLag` | src/devices/timer.rs:284-289 | numbers for which the counter has wrapped and a caught-up interrupter has sent nothing |
| `TimerSchedule.InterrupterCanLead` | src/devices/timer.rs:282-283 | numbers at 508 kHz for which an interrupt was sent before the wrap |
| `TimerUnits.ClearsExactly` | src/devices/timer.rs:299 | a write of the clear register lowers the line unless the timer is stuck |
| `TimerUnits.UnitSchedule` | src/devices/timer.rs:45-75 | the schedule theorem over the history of a timer and its interrupter from power-on |
| `TimerUnits.ScheduledWhenCountingExactly` | src/devices/timer.rs:254-295 | interrupts are scheduled just when the counter counts periods, exactly if an enabled, loaded timer still has the mode it was enabled with |
| `TimerUnits.CountsWithoutInterrupts` | src/devices/timer.rs:254-295 | three writes from power-on after which the counter counts periods and no message was sent |
| `TimerValues.StoppedValueStays` | src/devices/timer.rs:292-295 | after any run from power-on and a disabling control write, a read of the value gives at every later time what a read at that moment gave, until a load write or an enabling write |
| `TimerValues.StoppedShowsTheTicks` | src/devices/timer.rs:137-157 | for a free-running timer that is the start value minus all ticks until then |
| `TimerValues.StoppedShowsTheCounter` | src/devices/timer.rs:158-177 | for a periodic one it is the tick-by-tick counter at that moment, or the load value where that counter is at zero |
| `TimerValues.FreeRunningFromLoad` | src/devices/timer.rs:206-218 | after a load and an enabling write a free-running timer reads as the load value minus 508 or 2 ticks a millisecond, by bit 3, in the width of the counter, whatever accesses come between |
| `TimerValues.PeriodicFromLoad` | src/devices/timer.rs:206-218 | the same in periodic mode, where the counter reloads after zero |
| `TimerValues.ControlAndLoadRead` | src/devices/timer.rs:206-228 | after any run that did not leave the timer stuck, the control register reads as the three bits last written; the load register as the value last written with effect, masked, since the timer was last disabled, else the error |
| `TimerValues.ControlWriteKeepsCounter` | src/devices/timer.rs:254-295 | no control write changes the counter, and only one that enables a disabled timer sets back the part of a tick |
| `TimerValues.LoadedValueStays` | src/devices/timer.rs:234-247 | a loaded timer reads as the load value, in its width, until it is enabled or loaded again |
| `TimerValues.ZeroLoadShowsZero` | src/devices/timer.rs:169-170 | with a load value of zero a periodic counter reads as zero |
| `TimerValues.ReadFailsExactly` | src/devices/timer.rs:206-228 | which reads fail, and how, both ways |
| `TimerValues.WriteFailsExactly` | src/devices/timer.rs:230-302 | which writes fail, and how, both ways |
| `TimerLaws.FreeRunningIsExact` | src/devices/timer.rs:137-157 | for any split of the time into accesses that keep enable, mode and clock, value and remainder are those of one update at the end, despite truncation and masking |
| `TimerLaws.FreeRunningReads` | src/devices/timer.rs:206-218 | after any run of accesses a read of the value register gives the start value minus all ticks, modulo the counter width |
| `TimerLaws.TruncatedTicksSuffice` | src/devices/timer.rs:151-156 | subtracting truncated ticks and masking is subtraction modulo the counter width |
| `TimerLaws.PeriodicIsExactModuloLoad` | src/devices/timer.rs:158-177 | for any split of the time, the value is right modulo the load value and never exceeds it, and the remainder is exact |
| `TimerLaws.PeriodicMatchesTickByTick` | src/devices/timer.rs:158-177 | it agrees, modulo the load value, with a counter that goes down and reloads one tick at a time |
| `TimerLaws.PeriodicReads` | src/devices/timer.rs:206-218 | after any run of accesses a read of the value register gives the tick-by-tick counter, except that it gives the load value for a zero exactly when more ticks passed since the last access than the counter showed then |
| `TimerLaws.TicksDownIs` | src/devices/timer.rs:169-176 | the one-tick-at-a-time counter in closed form |
| `TimerLaws.BatchShowsTicksExactly` | src/devices/timer.rs:169-176 | a batch shows the tick-by-tick value exactly unless it ends on a zero after a reload |
| `TimerLaws.SplitShowsSameExactly` | src/devices/timer.rs:169-176 | splitting an update shows the same value exactly unless the second part ends on the zero after a reload in the first |
| `TimerLaws.SplitCanShowAnother` | src/devices/timer.rs:169-176 | numbers for which it does not |
| `TimerLaws.TruncationIsHarmlessExactly` | src/devices/timer.rs:151 | truncated ticks are right modulo the load value exactly when what is cut off is a multiple of it |
| `TimerLaws.EveryRunIsValid` | src/devices/timer.rs:205-303 | after every run of accesses the remainder is below a million, value and load fit the width, and a disabled timer with a load set has it as its value |
| `TimerLaws.PeriodicEdge` | src/devices/timer.rs:266-291 | enabling periodic counting succeeds exactly with a load value set; the counter then starts at the load value the interrupter's period is computed from |
| `TimerLaws.ControlReadsBack` | src/devices/timer.rs:219-224 | the control bits read back after any control write unless the timer is stuck |
| `TimerLaws.StuckForever` | src/devices/timer.rs:158-168 | a timer counting periodically without a load value stays so over every run, and every access of it fails and sends nothing |
| `TimerLaws.StuckExactly` | src/devices/timer.rs:254-291 | after any run it is so exactly when it was before or a control write of the run asked for it without a load value |
| `TimerLaws.TimerCanStick` | src/devices/timer.rs:254-291 | 0x80 and then 0xc0 take any timer there from power-on |
| `TimerLaws.TruncationCanHarm` | src/devices/timer.rs:151 | a timer from power-on that shows another value than its counter modulo the load value |
| `TimerLaws.TimerSticks` | src/devices/timer.rs:254-291 | two control writes that both succeed, free-running and then periodic, take any timer to the stuck state from power-on |
| `Ts7200.NoInstructionBeforeWakeUp` | src/sys/ts7200/mod.rs:264-269 | in every run, between being halted and the next instruction there is a step after which an enabled request was active, told to the processor |
| `Ts7200.PendingRequestWakesExactly` | src/sys/ts7200/mod.rs:202-207 | with a request pending, the next step wakes the system exactly when it does not block on an empty bus |
| `Ts7200.PendingRequestCanWait` | src/sys/ts7200/mod.rs:204-207 | a run of one-access instructions that halts with an enabled request active and then waits for the bus |
| `Ts7200.HaltNeedsTheHandshake` | src/devices/syscon.rs:86-97 | a run is halted exactly when its own accesses made the whole unlock, configure, enter handshake and it was not woken since |
| `Ts7200.SysconFollowsItsHistory` | src/sys/ts7200/mod.rs:226-272 | in every run the system controller is where its own history of operations puts it |
| `Ts7200.StopsExactly` | src/sys/ts7200/mod.rs:152-184 | a step continues iff its instruction raised nothing or, last, a stub read, a stub write, an invalid access or a violation of severity Warn; otherwise it ends with that last exception |
| `Ts7200.FatalExceptionCanBeMasked` | src/sys/ts7200/mod.rs:237-239 | for a store of two registers, a fatal exception goes unnoticed |
| `Ts7200.EventsExactly` | src/sys/ts7200/mod.rs:242-262 | exactly which event a step reports: the return to the bootloader first, else the last successful access to a watched address, else a breakpoint |
| `Ts7200.SysconAccessStops` | src/sys/ts7200/mod.rs:152-184 | a last access at an offset without a system controller register stops the step, and so does a write behind the closed lock |
| `Ts7200.VicAccessStops` | src/sys/ts7200/mod.rs:152-184 | the same for both interrupt controllers, while a write of the protection register continues |
| `Ts7200.RaisedExactly` | src/sys/ts7200/mod.rs:209-214 | the processor is told of FIQ first and then of IRQ, each iff a line of either controller requests it |
| `Ts7200.OnlyRunningSystemsExecute` | src/sys/ts7200/mod.rs:220-275 | a frozen step does nothing, a step in standby fails, and a halted one takes in all messages and runs again iff a request is then output; none makes an access |
| `Ts7200.HitsExactly` | src/sys/ts7200/mod.rs:242-262 | which access hits which watchpoint: it succeeds and its absolute address is watched |
| `Syscon.LockIsOpenExactly` | src/devices/syscon.rs:138-150 | the lock register reads as unlocked exactly when an unlock was not yet used up by a write behind the lock |
| `Syscon.EveryPassCostsAnUnlock` | src/devices/syscon.rs:138-150 | writes that pass the lock, plus one if it is open, never outnumber the unlock writes |
| `Syscon.ConfigurationIsLastWrite` | src/devices/syscon.rs:138-183 | the configuration register holds, and reads as, what the last write that got past the lock wrote, else its initial value |
| `Syscon.LowPowerExactly` | src/devices/syscon.rs:86-110 | Halt (Standby) holds exactly when an entering read came after the handshake and nothing left the state since |
| `Syscon.ScratchIsLastWrite` | src/devices/syscon.rs:115-116 | after every history a scratch register reads as the last value written to it |
| `Syscon.LockedWriteFailsExactly` | src/devices/syscon.rs:138-150 | after every history a write behind the lock fails and changes nothing iff the lock is closed, and closes it otherwise |
| `Syscon.EnteringFailsExactly` | src/devices/syscon.rs:86-110 | after every history an entering read fails iff the shutdown bit was not last written with effect |
| `Syscon.ReadFailsExactly` | src/devices/syscon.rs:82-136 | which reads fail, and how, both ways |
| `Syscon.WriteFailsExactly` | src/devices/syscon.rs:138-186 | which writes fail, and how, both ways |
| `VicHistory.ReadsOverHistory` | src/devices/vic/vicmanager.rs:76-105 | after every history, select, default address, enable and software registers of each controller read as the writes at its own addresses give, set and clear accounted for; the other one's writes play no part |
| `VicHistory.SlotReadsOverHistory` | src/devices/vic/vicmanager.rs:76-105 | the same for the address and control registers of all sixteen slots of each |
| `VicHistory.StatusOverHistory` | src/devices/vic/mod.rs:126-130 | after every history the three status registers show each line at its controller and bit: raised by its last message or by software, enabled and routed by the writes |
| `VicHistory.LineOverHistory` | src/devices/vic/vicmanager.rs:44-52 | after every history a line is up iff the last message about it said so |
| `VicHistory.SecondVectoredRead` | src/devices/vic/mod.rs:144 | a vectored read at the second controller's own address dispatches for it alone |
| `VicHistory.PairFailsExactly` | src/devices/vic/vicmanager.rs:76-105 | an access of either controller is unexpected iff its offset has no register; only a write of the protection register is a stub write |
| `VicManager.VectoredReadDispatches` | src/devices/vic/vicmanager.rs:76-97 | after every history of messages and writes, the top-level read follows the daisy-chain dispatch rule |
| `VicManager.FiqForcesDefault` | src/devices/vic/vicmanager.rs:78-87 | with an FIQ on the dispatching controller, its default address is read |
| `VicManager.DeliverSetsOneLine` | src/devices/vic/vicmanager.rs:44-52 | a message sets the level of its own line and of no other |
| `VicManager.DeliverAllSettles` | src/sys/ts7200/mod.rs:190-200 | after a batch of messages a line has the level last announced for it |
| `VicUnit.StatusBits` | src/devices/vic/mod.rs:47-63 | each bit of the raw, IRQ and FIQ status means: raised by hardware or software; and enabled and routed accordingly |
| `VicUnit.OutputsMeanRequests` | src/devices/vic/mod.rs:55-63 | IRQ (FIQ) is output exactly when some line requests one |
| `VicUnit.IsrAddressDispatches` | src/devices/vic/mod.rs:65-81 | the address is that of the lowest-numbered enabled slot whose source requests an IRQ, else the default; always the default with an FIQ pending |
| `VicUnit.WriteReachesOneRegister` | src/devices/vic/mod.rs:159-193 | a write changes nothing but the register it names, and nothing when it fails |
| `VicUnit.WriteThenRead` | src/devices/vic/mod.rs:126-193 | what is read back after a write of a register that holds a value |
| `VicUnit.SetAndClearRegisters` | src/devices/vic/mod.rs:166-168 | after a write of a set or clear register, the enable and software registers read with exactly the named bits added or removed |
| `VicUnit.ReadFailsExactly` | src/devices/vic/mod.rs:126-157 | which reads fail, and how, both ways; the identification registers read as their stand-ins |
| `VicUnit.WriteFailsExactly` | src/devices/vic/mod.rs:159-193 | which writes fail, and how, both ways |
| `MemoryAdapter.ReadIsLastWritten` | src/memory/armv4t_adaptor.rs:39-66 | at every width the processor reads the little-endian join of the last-written bytes |
| `MemoryAdapter.SanitizerIsTransparent` | src/memory/armv4t_adaptor.rs:44-52 | histories with the same writes read alike, however the sanitizer was switched |
| `MemoryAdapter.ReadRaisesExactly` | src/devices/ram.rs:94-127 | when a read raises an exception, by what was written and how the sanitizer was last set, and that its severity is Warn |
| `MemoryAdapter.WriteThenRead` | src/devices/ram.rs:94-148 | a value is read back at the same width as long as nothing is written over it |
| `MemoryAdapter.UnwrittenReadsAsDashes` | src/devices/ram.rs:26-33 | bytes never written read as 0x2d at every width |
| `MemoryAdapter.ValuesExactly` | src/memory/armv4t_adaptor.rs:42-53 | the value the processor gets for each result: stand-ins in the width of the access, zero for every other exception |
| `MemoryAdapter.SetAsideIsLastFailure` | src/memory/armv4t_adaptor.rs:54-60 | the exception set aside is that of the last access that failed, with its address and kind |
| `Ram.RamIsLastWritten` | src/devices/ram.rs:94-148 | after every history, each byte is the last one written or the fill byte, and the shadow is the set of written addresses |
| `Ram.SanitizerIsAsSet` | src/devices/ram.rs:26-36 | after every history the sanitizer is as last set, on at first |
| `LineControl.WordsAreThoseWritten` | src/devices/uart/device.rs:664-685 | in every run the latch holds the last written words and the active ones are those of the last LinCtrlHigh write |
| `LineControl.HighWriteKeepsWordsExactly` | src/devices/uart/device.rs:664-673 | a LinCtrlHigh write keeps the other active words exactly when the values last written to them are the active ones |
| `LineControl.HighWriteKeepsRateExactly` | src/devices/uart/device.rs:134-138 | it keeps the baud rate exactly when the low word last written divides 460800 like the active one |
| `LineControl.HighWriteIsDefinedExactly` | src/devices/uart/device.rs:134-138 | in any run a LinCtrlHigh write does not divide by zero exactly when the values last written to the other two words allow it |
| `LineControl.HighWriteCanDivideByZero` | src/devices/uart/device.rs:674-678 | one write from power-on after which it does |
| `LineControl.ControlIsLastWrite` | src/devices/uart/device.rs:686-691 | in every run the control register reads as the last value written to it, or its initial one |
| `UartState.IntIdIsMaskedConditions` | src/devices/uart/device.rs:148-165 | the condition bits masked by the control register shifted right by three are, bit by bit, the enabled conditions |
| `UartState.LevelIsMaskTest` | src/devices/uart/device.rs:187-189 | the three line levels are the mask tests 4, 2 and 15 on that word |
| `UartState.RefreshAnnouncesChanges` | src/devices/uart/device.rs:173-183 | it announces exactly the flags that were wrong, with the right level |
| `UartState.BaudDefinedExactly` | src/devices/uart/device.rs:134-138 | the baud rate is non-zero exactly when the low byte of the middle word is zero and the low word is below 460800 |
| `UartState.LineControlRoundTrip` | src/devices/uart/device.rs:577-603 | latched words read back only after the high word is written, and until then the middle and low words cannot be read |
| `UartState.FirstHighWriteChangesRate` | src/devices/uart/device.rs:118-132 | the first one takes the device from 115200 to 460800 baud |
| `UartState.ReadFailsExactly` | src/devices/uart/device.rs:551-636 | which reads fail, and with which exception, both ways |
| `UartState.WriteFailsExactly` | src/devices/uart/device.rs:638-707 | which writes fail, and with which exception, both ways |
| `UartState.RefreshAnnouncesInOrder` | src/devices/uart/device.rs:170-185 | a refresh announces in the order transmit, receive, combined |
| `Interrupts.BankIndexInjective` | src/devices/vic/interrupts.rs:20-50 | bank and index together identify the source |
| `Interrupts.WiringIsBankAndIndex` | src/devices/vic/interrupts.rs:20-50 | every source is wired to the controller and bit of a table of numbers |
| `IoThreads.FlushQueued` | src/devices/uart/device.rs:334-336 | everything still queued at exit is forwarded, in order, behind what was sent before |
| `IoThreads.WriterToChan` | src/devices/uart/iothreads/mod.rs:29-38 | the writer puts out everything in its channel and everything sent while it runs, in order, and ends with the channel empty |
| `IoThreads.FlushInSteps` | src/devices/uart/device.rs:334-336 | the flush loop is the protocol's draining steps |
| `IoThreads.WriterInSteps` | src/devices/uart/iothreads/mod.rs:34-36 | the writer loop is the protocol's writer steps |
| `Ts7200.System.CheckDeviceInterrupts` | src/sys/ts7200/mod.rs:189-216 | the bus is drained into the controllers and the processor told of FIQ, then IRQ |
| `Ts7200.System.RunInstruction` | src/sys/ts7200/mod.rs:235-239 | the state, the exception and the watchpoint hit left by the accesses of one instruction |
| `Ts7200.System.StepOnce` | src/sys/ts7200/mod.rs:220-275 | the new state, the exceptions raised, the outcome and the reported event of a step in every power state, frozen or not |
| `Syscon.Syscon.R32` | src/devices/syscon.rs:82-136 | the result and the new state of every read |
| `Syscon.Syscon.W32` | src/devices/syscon.rs:138-186 | the result and the new state of every write |
| `VicManager.VicManager.W32` | src/devices/vic/vicmanager.rs:99-105 | the result and the new registers of a write, routed by offset |
| `VicManager.VicManager.DrainBus` | src/sys/ts7200/mod.rs:190-203 | all waiting messages are applied in order and the bus is empty |
| `VicUnit.Vic.W32` | src/devices/vic/mod.rs:159-193 | the result and the new registers of every write |
| `MemoryAdapter.MemoryAdapter.HandleRead` | src/memory/armv4t_adaptor.rs:42-61 | stub values pass through in the width of the access, everything else reads as zero, and the exception is set aside |
| `Ram.Ram.BulkWrite` | src/devices/ram.rs:46-51 | the bytes and their shadow change, nothing else |
| `Ram.Ram.W16` | src/devices/ram.rs:134-139 | the little-endian bytes of the value are stored and marked |
| `Ram.Ram.W32` | src/devices/ram.rs:141-146 | the little-endian bytes of the value are stored and marked |
| `Ram.Ram.R16` | src/devices/ram.rs:104-111 | the little-endian join, or the violation that carries it |
| `Ram.Ram.R32` | src/devices/ram.rs:113-127 | the same, with the exception for words whose aligned first byte was written |
| `UartDevice.State.UpdateInterrupts` | src/devices/uart/device.rs:167-190 | the method brings all flags to their levels and sends exactly the edges, in the order tx, rx, combined |
| `UartDevice.State.StoreByte` | src/devices/uart/device.rs:237-249 | a received byte is buffered and the lines refreshed, or it is dropped with overrun |
| `UartDevice.State.ExpireTimeout` | src/devices/uart/device.rs:250-256 | the timeout condition is set and the lines refreshed, only with unread bytes |
| `UartDevice.State.BeginTransmit` | src/devices/uart/device.rs:300-309 | an idle transmitter becomes busy, with a modem change and a refresh |
| `UartDevice.State.EndTransmit` | src/devices/uart/device.rs:320-328 | the count goes down by one; at zero the transmitter is idle again; the lines are refreshed |
| `UartDevice.Uart.R32` | src/devices/uart/device.rs:551-636 | the result, the new registers and the messages of every register read |
| `UartDevice.Uart.W32` | src/devices/uart/device.rs:638-707 | the result, the new registers, the byte handed over and the messages of every register write |
| `Timer.Timer.UpdateRegisters` | src/devices/timer.rs:137-181 | the registers and the result of a lazy update |
| `Timer.Timer.R32` | src/devices/timer.rs:206-228 | the registers and the result of every read |
| `Timer.Timer.W32` | src/devices/timer.rs:230-302 | the registers, the result, and the messages to the interrupter and the bus of every write |

## Left out

- Processor, ELF loading and debugger stub: an instruction is any sequence of bus accesses, and where it leaves the program counter is given.
- Sockets, files, standard streams and the UART configuration parser: the reader task is the arrival of arbitrary bytes, and the one installed writer task is taken to succeed at every write.
- Byte timing: bit time and word length are dropped from the line control model, except for whether they are defined; thread sleeps take any time.
- Wall clock: times are nanoseconds that do not decrease. The wait of an interrupter without a deadline, which the source makes very long, is taken never to end.
- Exception messages, log output, probing and formatting.
- UartDevice.Uart.W32: does not model the panic of a LinCtrlHigh write that divides by zero; such a write is excluded by a precondition whose exactness is `UartState.BaudDefinedExactly`, because it ends the process.
- Timer.Timer.UpdateRegisters: does not model overflow of the 64-bit product of nanoseconds and clock rate, which takes more than a year between accesses; it is excluded by a precondition.
- TimerLaws.PeriodicIsExactModuloLoad: is stated for accesses with fewer than 2^32 ticks between them; `TimerLaws.TruncationIsHarmlessExactly` says what happens otherwise.
- TimerSchedule.ScheduleAgreesWithCounter: starts at an enabling write with a load of at least one and keeps enable, mode and clock; `TimerUnits.ScheduledExactly` says what is scheduled otherwise, and a zero load gives the interrupter a zero period.
- Ts7200.NoInstructionBeforeWakeUp: promises that a halted system runs only once woken, not that it is woken; `Ts7200.PendingRequestWakesExactly` says when.
- Fabric.RunIsCoherent: the third UART is there from the start or not at all; the clock readings of different timers and threads are not ordered against each other, which only adds runs.
- Machine.CheckMissesNoLine: the events of steps are left to `Ts7200.EventsExactly`; an access to a UART is made only when it is defined and its lock is free, and the instruction fetch is one of the plain accesses.
- MemoryAdapter.MemoryAdapter.R32: the shim is put over RAM; what it does with the result of any other memory is stated by `MemoryAdapter.MemoryAdapter.HandleRead`.
- The two buffer-thread loops of the UART are not methods but thread steps of the protocol, because other threads run between their iterations; the critical sections inside them are methods of `UartDevice.State`.
- Memory map dispatch and the default byte and half-word accesses of register devices: they forward to the word accesses modelled here.
- Ram.Ram.R32: does not model the panic of an access that runs past the end of the array, such as a misaligned word at the very end of RAM; all RAM accesses are taken to be in range.
- The Protection and VectAddr-write stubs of the controllers do nothing but return, as in the source.
- Standby: entering it is modelled, the step that then fails is modelled, and nothing leaves it.
