/** Progress of the UART protocol: without further input from outside, it comes to rest, and at rest
    every byte has gone where it should. */
module UartProgress {
  import opened Memory
  import opened UartState
  import opened UartProtocol
  import opened UartInvariants
  import opened UartTheorems

  /** The steps the protocol takes on its own: no new byte, no new register access, no new shutdown. */
  predicate Internal(a: Action) {
    match a
    case Arrive(_) => false
    case LockStep => true
    case Main(m) => m == DropNext
    case Input(_) => true
    case Output(_) => true
    case Writer(_) => true
  }

  function MainRank(m: MainPc): nat {
    match m
    case ExitOutput => 4
    case JoinInput => 3
    case JoinOutput => 2
    case JoinWriter => 1
    case _ => 0
  }

  predicate CanTimeout(s: Regs) {
    s.rxBuf != [] && !s.timeout
  }

  function InputRank(i: InputPc, regs: Regs): nat {
    match i
    case InputExited => 0
    case Waiting(false) => 1
    case Deciding => if CanTimeout(regs) then 10 else 2
    case TimedOut => 7
    case Waiting(true) => 8
    case Received(_) => 16
  }

  function OutputRank(o: OutputPc): nat {
    match o
    case OutputExited => 0
    case Draining => 1
    case Selecting => 2
    case Sent => 6
    case DrainTaken(_) => 6
    case Sending(_) => 10
    case Taken(_) => 14
  }

  function WriterRank(w: WriterPc): nat {
    match w
    case WriterDone => 0
    case Receiving => 1
    case Writing(_) => 2
  }

  /** An upper bound on the number of internal steps still to come. */
  function Remaining(s: Proto): nat {
    WorkLeft(s.lock) + MainRank(s.main)
    + 32 * |s.ch.uartRx| + InputRank(s.input, s.regs)
    + 16 * |s.ch.deviceTx| + OutputRank(s.output)
    + 3 * |s.ch.uartTx| + WriterRank(s.writer)
  }

  lemma InternalStepDecreases(s: Proto, a: Action)
    requires Enabled(s, a) && Internal(a)
    ensures Remaining(Next(s, a)) < Remaining(s)
  {
    match a
    case LockStep => LockStepDecreases(s);
    case Main(_) =>
    case Input(i) => InputStepDecreases(s, i);
    case Output(o) => OutputStepDecreases(s, o);
    case Writer(w) => WriterStepDecreases(s, w);
  }

  lemma LockStepDecreases(s: Proto)
    requires s.lock.Held?
    ensures Remaining(LockNext(s)) < Remaining(s)
  {
  }

  lemma InputStepDecreases(s: Proto, i: InputAction)
    requires InputEnabled(s, i)
    ensures Remaining(InputNext(s, i)) < Remaining(s)
  {
  }

  lemma OutputStepDecreases(s: Proto, o: OutputAction)
    requires OutputEnabled(s, o)
    ensures Remaining(OutputNext(s, o)) < Remaining(s)
  {
  }

  lemma WriterStepDecreases(s: Proto, w: WriterAction)
    requires WriterEnabled(s, w)
    ensures Remaining(WriterNext(s, w)) < Remaining(s)
  {
  }

  /** The state after a schedule that starts in `s`, if every step is enabled in turn. */
  function RunFrom(s: Proto, schedule: seq<Action>): Option<Proto>
    decreases |schedule|
  {
    if schedule == [] then Some(s)
    else if Enabled(s, schedule[0]) then RunFrom(Next(s, schedule[0]), schedule[1..])
    else None
  }

  /** However the threads are scheduled, they take no more internal steps than the bound says. */
  lemma {:induction false} InternalRunsEnd(s: Proto, schedule: seq<Action>)
    requires forall k :: 0 <= k < |schedule| ==> Internal(schedule[k])
    requires RunFrom(s, schedule).Some?
    ensures |schedule| <= Remaining(s)
    decreases |schedule|
  {
    if schedule != [] {
      InternalStepDecreases(s, schedule[0]);
      InternalRunsEnd(Next(s, schedule[0]), schedule[1..]);
    }
  }

  /** No internal step is possible. */
  ghost predicate AtRest(s: Proto) {
    forall a :: Internal(a) ==> !Enabled(s, a)
  }

  lemma RestingInput(s: Proto)
    requires AtRest(s)
    ensures s.lock == Free
    ensures (s.input == Waiting(false) && s.ch.uartRx == [] && !s.ch.exitInput) || s.input == InputExited
  {
    assert !Enabled(s, LockStep);
    assert !Enabled(s, Input(Decide)) && !Enabled(s, Input(ReceiveByte)) && !Enabled(s, Input(Expire));
    assert !Enabled(s, Input(LeaveInput)) && !Enabled(s, Input(Store)) && !Enabled(s, Input(MarkTimeout));
  }

  lemma RestingOutput(s: Proto)
    requires AtRest(s) && s.lock == Free
    ensures (s.output == Selecting && s.ch.deviceTx == [] && !s.ch.exitOutput) || s.output == OutputExited
  {
    assert !Enabled(s, Output(TakeByte)) && !Enabled(s, Output(LeaveOutput)) && !Enabled(s, Output(Begin));
    assert !Enabled(s, Output(SendByte)) && !Enabled(s, Output(End)) && !Enabled(s, Output(Drain));
    assert !Enabled(s, Output(DrainSend)) && !Enabled(s, Output(Finish));
  }

  lemma RestingWriter(s: Proto)
    requires AtRest(s) && ShutdownInv(s)
    ensures s.ch.uartTx == [] && !s.writer.Writing?
    ensures s.output == OutputExited ==> s.writer == WriterDone
  {
    assert !Enabled(s, Writer(TakeOutput)) && !Enabled(s, Writer(WriteOut)) && !Enabled(s, Writer(Hangup));
  }

  /** A device that is not being dropped comes to rest with the transmitter empty and idle, every
      accepted byte written out, every byte that arrived dealt with, and no byte left unread without
      the timeout condition. A device that is being dropped does not come to rest before the drop is
      complete, and by then every accepted byte is written out. */
  lemma AtRestAllIsDone(s: Proto)
    requires Reachable(s) && AtRest(s)
    ensures s.main == Running || s.main == Dropped
    ensures s.main == Running ==>
              && s.regs.txBufSize == 0 && !s.regs.busy
              && s.log.arrived == Handled(s.log.rxEvents)
              && (s.regs.rxBuf != [] ==> s.regs.timeout)
    ensures s.log.delivered == s.log.accepted
  {
    ReachableSatisfiesInv(s);
    RestingInput(s);
    RestingOutput(s);
    RestingWriter(s);
    assert !Enabled(s, Main(DropNext));
  }

  // ----- the transmitter alone -----

  /** An upper bound on the number of steps of the output thread still to come, as long as no further
      byte is accepted. */
  function OutputRemaining(s: Proto): nat {
    16 * |s.ch.deviceTx| + OutputRank(s.output)
  }

  predicate AcceptsByte(s: Proto, a: Action) {
    a.Main? && a.m.Write? && a.m.offset == 0x00 && s.regs.txBufSize < s.regs.line.fifoSize
  }

  /** Every step of the output thread brings it nearer to rest, and no other step of any kind takes
      it further away, except accepting a byte. */
  lemma OutputOnlyProgresses(s: Proto, a: Action)
    requires Enabled(s, a)
    ensures a.Output? ==> OutputRemaining(Next(s, a)) < OutputRemaining(s)
    ensures !a.Output? && !AcceptsByte(s, a) ==> OutputRemaining(Next(s, a)) == OutputRemaining(s)
    ensures AcceptsByte(s, a) ==> OutputRemaining(Next(s, a)) == OutputRemaining(s) + 16
  {
    match a
    case Main(m) => MainOutputRemaining(s, m);
    case Output(o) => OutputStepRemaining(s, o);
    case Input(i) => InputOutputRemaining(s, i);
    case _ =>
  }

  lemma MainOutputRemaining(s: Proto, m: MainAction)
    requires MainEnabled(s, m)
    ensures OutputRemaining(MainNext(s, m)) == OutputRemaining(s) + if AcceptsByte(s, Main(m)) then 16 else 0
  {
    if m.Write? {
      WriteAccepts(s.regs, m.offset, m.val);
    }
  }

  lemma InputOutputRemaining(s: Proto, i: InputAction)
    requires InputEnabled(s, i)
    ensures OutputRemaining(InputNext(s, i)) == OutputRemaining(s)
  {
  }

  lemma OutputStepRemaining(s: Proto, o: OutputAction)
    requires OutputEnabled(s, o)
    ensures OutputRemaining(OutputNext(s, o)) < OutputRemaining(s)
  {
  }

  function OutputSteps(schedule: seq<Action>): nat {
    if schedule == [] then 0 else (if schedule[0].Output? then 1 else 0) + OutputSteps(schedule[1..])
  }

  /** No step of the schedule, taken from `s`, accepts a byte. */
  predicate AcceptsNothing(s: Proto, schedule: seq<Action>)
    decreases |schedule|
  {
    schedule != [] && Enabled(s, schedule[0]) ==>
      !AcceptsByte(s, schedule[0]) && AcceptsNothing(Next(s, schedule[0]), schedule[1..])
  }

  /** In any continuation that accepts no byte, whatever else the processor, the reader task and the
      other threads do, the output thread takes at most the bounded number of steps. */
  lemma {:induction false} TransmitterDrains(s: Proto, schedule: seq<Action>)
    requires RunFrom(s, schedule).Some? && AcceptsNothing(s, schedule)
    ensures OutputSteps(schedule) + OutputRemaining(RunFrom(s, schedule).value) <= OutputRemaining(s)
    decreases |schedule|
  {
    if schedule != [] {
      OutputOnlyProgresses(s, schedule[0]);
      TransmitterDrains(Next(s, schedule[0]), schedule[1..]);
    }
  }

  /** An output thread of a running device that cannot step although the lock is free has drained:
      the count is zero and the transmitter idle. */
  lemma DrainedTransmitterIsIdle(s: Proto)
    requires Reachable(s) && s.main == Running && s.lock == Free
    requires forall o :: !OutputEnabled(s, o)
    ensures s.regs.txBufSize == 0 && !s.regs.busy && s.ch.deviceTx == []
  {
    ReachableSatisfiesInv(s);
    assert !OutputEnabled(s, TakeByte) && !OutputEnabled(s, Begin);
    assert !OutputEnabled(s, SendByte) && !OutputEnabled(s, End);
  }
}
