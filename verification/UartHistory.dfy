/** What a run of the UART amounts to: its flags and registers in terms of what was written to it, of the
    bytes that went through it, and of the steps its threads took. */
module UartHistory {
  import opened Bits
  import opened Memory
  import opened UartState
  import opened UartProtocol
  import opened UartInvariants
  import opened UartTheorems
  import opened LineControl

  // ----- sizes and counts -----

  /** The size of the FIFOs: that of the last activated high word, by its bit 4. */
  function FifoSize(schedule: seq<Action>): nat {
    if Bit(Activated(schedule).high, 4) then 16 else 1
  }

  lemma {:induction false} SizeIsActivated(schedule: seq<Action>)
    requires Run(schedule).Some?
    ensures Run(schedule).value.regs.line.fifoSize == FifoSize(schedule)
  {
    if schedule != [] {
      var n := |schedule| - 1;
      SizeIsActivated(schedule[..n]);
      StepOnSize(Run(schedule[..n]).value, schedule[n]);
    }
  }

  lemma StepOnSize(s: Proto, a: Action)
    requires Enabled(s, a)
    ensures Next(s, a).regs.line.fifoSize
         == if IsWrite(a, 0x08) then (if Bit(a.m.val, 4) then 16 else 1) else s.regs.line.fifoSize
  {
    match a
    case Main(Read(offset)) => ReadFrame(s.regs, offset);
    case Main(Write(offset, val)) =>
      WriteResizes(s.regs, offset, val);
      WriteAccepts(s.regs, offset, val);
    case Input(i) => InputKeepsSizes(s, i);
    case Output(o) => OutputKeepsSizes(s, o);
    case _ =>
  }

  /** Accepted bytes that still count: queued, in flight, or drained after the exit signal. */
  function Outstanding(s: Proto): nat {
    |s.ch.deviceTx| + InFlight(s.output) + s.log.drained
  }

  /** Received bytes that were kept and not read yet. */
  function Unread(s: Proto): int {
    |KeptBytes(s.log.rxEvents)| - |s.log.readBytes|
  }

  // ----- dropped bytes -----

  /** A received byte is dropped exactly when the receive FIFO is full and was not made infinite. */
  lemma {:induction false} DroppedExactly(schedule: seq<Action>)
    requires Run(schedule).Some? && InputEnabled(Run(schedule).value, Store)
    ensures var s := Run(schedule).value;
            Next(s, Input(Store)).log.rxEvents == s.log.rxEvents +
              [if Unread(s) >= FifoSize(schedule) && !s.regs.infiniteRx then Lost(s.input.b) else Kept(s.input.b)]
  {
    SizeIsActivated(schedule);
    RunSatisfiesInv(schedule);
    assert |KeptBytes(Run(schedule).value.log.rxEvents)|
        == |Run(schedule).value.log.readBytes| + |Run(schedule).value.regs.rxBuf|;
  }

  /** A data write is accepted exactly when fewer bytes are outstanding than the FIFO holds. */
  lemma {:induction false} AcceptedExactly(schedule: seq<Action>, val: word)
    requires Run(schedule).Some? && MainEnabled(Run(schedule).value, Write(0x00, val))
    ensures var s := Run(schedule).value;
            var taken := if Outstanding(s) < FifoSize(schedule) then [LowByte(val)] else [];
            Next(s, Main(Write(0x00, val))).log.accepted == s.log.accepted + taken
  {
    SizeIsActivated(schedule);
    RunSatisfiesInv(schedule);
    WriteAccepts(Run(schedule).value.regs, 0x00, val);
    var accepted := Run(schedule).value.log.accepted;
    assert accepted + [] == accepted;
  }

  function LowByte(val: word): byte {
    val % 0x100
  }

  // ----- busy -----

  /** Step `k` is the output thread starting on a byte. */
  predicate BeginsAt(schedule: seq<Action>, k: int) {
    0 <= k < |schedule| && schedule[k] == Output(Begin)
  }

  /** Step `k` takes the count of outstanding bytes to zero. */
  ghost predicate EmptiesAt(schedule: seq<Action>, k: int) {
    && 0 <= k < |schedule|
    && Run(schedule[..k]).Some? && Run(schedule[..k + 1]).Some?
    && Run(schedule[..k]).value.regs.txBufSize > 0
    && Run(schedule[..k + 1]).value.regs.txBufSize == 0
  }

  /** Step `k` starts on a byte, and the count was not taken to zero since. */
  ghost predicate BusySince(schedule: seq<Action>, k: int) {
    BeginsAt(schedule, k) && forall j :: k < j < |schedule| ==> !EmptiesAt(schedule, j)
  }

  ghost predicate BegunSinceEmpty(schedule: seq<Action>) {
    exists k :: BusySince(schedule, k)
  }

  /** The transmitter is busy exactly when the output thread has started on a byte since the count was last
      taken to zero. */
  lemma {:induction false} BusyExactly(schedule: seq<Action>)
    requires Run(schedule).Some?
    ensures Run(schedule).value.regs.busy <==> BegunSinceEmpty(schedule)
  {
    if schedule != [] {
      var n := |schedule| - 1;
      var s := Run(schedule[..n]).value;
      BusyExactly(schedule[..n]);
      RunSatisfiesInv(schedule[..n]);
      StepOnBusy(s, schedule[n]);
      LastStepOnBegun(schedule, n);
      assert schedule[..n + 1] == schedule;
    }
  }

  lemma {:induction false} EmptiesInPrefix(schedule: seq<Action>, n: nat, k: nat)
    requires k < n <= |schedule|
    ensures EmptiesAt(schedule[..n], k) <==> EmptiesAt(schedule, k)
  {
    assert schedule[..n][..k] == schedule[..k] && schedule[..n][..k + 1] == schedule[..k + 1];
  }

  lemma {:induction false} EarlierBegun(schedule: seq<Action>, n: nat, k: nat)
    requires |schedule| == n + 1 && k < n
    ensures BusySince(schedule, k) <==> BusySince(schedule[..n], k) && !EmptiesAt(schedule, n)
  {
    forall j | k < j < n
      ensures EmptiesAt(schedule[..n], j) <==> EmptiesAt(schedule, j)
    {
      EmptiesInPrefix(schedule, n, j);
    }
  }

  lemma {:induction false} LastStepOnBegun(schedule: seq<Action>, n: nat)
    requires |schedule| == n + 1
    ensures BegunSinceEmpty(schedule) <==>
              || BeginsAt(schedule, n)
              || (!EmptiesAt(schedule, n) && BegunSinceEmpty(schedule[..n]))
  {
    if BeginsAt(schedule, n) {
      assert BusySince(schedule, n);
    }
    if k :| BusySince(schedule[..n], k) && !EmptiesAt(schedule, n) {
      EarlierBegun(schedule, n, k);
    }
    if k :| BusySince(schedule, k) {
      if k < n {
        EarlierBegun(schedule, n, k);
      }
    }
  }

  /** Starting on a byte makes the transmitter busy, taking the count to zero makes it idle, and nothing else
      changes it. */
  lemma StepOnBusy(s: Proto, a: Action)
    requires Enabled(s, a) && LockInv(s) && CountInv(s)
    ensures var t := Next(s, a);
            && (a == Output(Begin) ==> t.regs.busy && t.regs.txBufSize > 0)
            && (a != Output(Begin) ==>
                  t.regs.busy == (s.regs.busy && !(s.regs.txBufSize > 0 && t.regs.txBufSize == 0)))
  {
    match a
    case Main(Read(offset)) => ReadFrame(s.regs, offset);
    case Main(Write(offset, val)) => WriteFrame(s.regs, offset, val);
    case Input(i) => InputOnTransmit(s, i);
    case Output(o) => OutputOnBusy(s, o);
    case LockStep => LockOnTransmit(s);
    case _ =>
  }

  lemma LockOnTransmit(s: Proto)
    requires s.lock.Held? && CountInv(s)
    ensures LockNext(s).regs.busy == s.regs.busy && LockNext(s).regs.txBufSize >= s.regs.txBufSize
  {
  }

  lemma InputOnTransmit(s: Proto, i: InputAction)
    requires InputEnabled(s, i)
    ensures InputNext(s, i).regs.busy == s.regs.busy && InputNext(s, i).regs.txBufSize == s.regs.txBufSize
  {
    InputModemChange(s, i);
    InputKeepsSizes(s, i);
  }

  lemma OutputOnBusy(s: Proto, o: OutputAction)
    requires OutputEnabled(s, o) && LockInv(s) && CountInv(s)
    ensures var t := OutputNext(s, o);
            && (o == Begin ==> t.regs.busy && t.regs.txBufSize > 0)
            && (o != Begin ==>
                  t.regs.busy == (s.regs.busy && !(s.regs.txBufSize > 0 && t.regs.txBufSize == 0)))
  {
    match o
    case Begin =>
      assert OutputNext(s, o).regs == BeginSection(s.regs);
    case End =>
      assert OutputNext(s, o).regs == EndSection(s.regs);
    case _ =>
  }

  /** Between queued bytes the transmitter stays busy: the end of a byte that leaves others outstanding changes
      neither that nor the modem condition. */
  lemma {:induction false} BusyBetweenBytes(schedule: seq<Action>)
    requires Run(schedule).Some? && OutputEnabled(Run(schedule).value, End)
    ensures var s := Run(schedule).value;
            var t := Next(s, Output(End));
            Outstanding(t) > 0 ==> t.regs.busy && s.regs.busy && t.regs.ctsChange == s.regs.ctsChange
  {
    var s := Run(schedule).value;
    RunSatisfiesInv(schedule);
    SendingIsBusy(schedule);
    OutputOnBusy(s, End);
    OutputModemChange(s, End);
    StepKeepsCountInv(s, Output(End));
  }

  // ----- the receive timeout -----

  /** There were unread bytes when the input thread marked a timeout in step `k`, and ever since. */
  ghost predicate TimedOutAt(schedule: seq<Action>, k: int) {
    && 0 <= k < |schedule| && schedule[k] == Input(MarkTimeout)
    && forall j :: k <= j <= |schedule| ==> HasUnread(schedule, j)
  }

  /** There were unread bytes after the first `j` steps. */
  ghost predicate HasUnread(schedule: seq<Action>, j: int) {
    0 <= j <= |schedule| && Run(schedule[..j]).Some? && Unread(Run(schedule[..j]).value) > 0
  }

  ghost predicate TimedOut(schedule: seq<Action>) {
    exists k :: TimedOutAt(schedule, k)
  }

  /** The timeout condition is set exactly when a timeout was marked since the receive FIFO was last empty. */
  lemma {:induction false} TimeoutExactly(schedule: seq<Action>)
    requires Run(schedule).Some?
    ensures Run(schedule).value.regs.timeout <==> TimedOut(schedule)
  {
    if schedule != [] {
      var n := |schedule| - 1;
      TimeoutExactly(schedule[..n]);
      RunStepsOnTimeout(schedule, n);
      BufferedAt(schedule, n);
      BufferedAt(schedule, n + 1);
      LastStepOnTimedOut(schedule, n);
    }
  }

  lemma {:induction false} UnreadIsBuffered(schedule: seq<Action>)
    requires Run(schedule).Some?
    ensures Unread(Run(schedule).value) == |Run(schedule).value.regs.rxBuf|
  {
    RunSatisfiesInv(schedule);
    var s := Run(schedule).value;
    assert |KeptBytes(s.log.rxEvents)| == |s.log.readBytes| + |s.regs.rxBuf|;
  }

  lemma {:induction false} BufferedAt(schedule: seq<Action>, j: nat)
    requires j <= |schedule| && Run(schedule[..j]).Some?
    ensures HasUnread(schedule, j) <==> Run(schedule[..j]).value.regs.rxBuf != []
  {
    UnreadIsBuffered(schedule[..j]);
  }

  lemma {:induction false} RunStepsOnTimeout(schedule: seq<Action>, n: nat)
    requires |schedule| == n + 1 && Run(schedule).Some?
    ensures Run(schedule[..n]).Some? && schedule[..n + 1] == schedule
    ensures AfterTimeoutStep(Run(schedule[..n]).value.regs, schedule[n], Run(schedule).value.regs)
  {
    RunSatisfiesInv(schedule[..n]);
    StepOnTimeout(Run(schedule[..n]).value, schedule[n]);
  }

  /** What a step from `s` to `t` does to the timeout condition. */
  predicate AfterTimeoutStep(s: Regs, a: Action, t: Regs) {
    t.timeout <==> t.rxBuf != [] && ((a == Input(MarkTimeout) && s.rxBuf != []) || s.timeout)
  }

  lemma StepOnTimeout(s: Proto, a: Action)
    requires Enabled(s, a) && TimeoutInv(s)
    ensures AfterTimeoutStep(s.regs, a, Next(s, a).regs)
  {
    match a
    case Main(m) => MainOnTimeout(s, m);
    case Input(i) => InputOnTimeout(s, i);
    case Output(o) => OutputOnReceive(s, o);
    case LockStep => LockOnReceive(s);
    case _ =>
  }

  lemma MainOnTimeout(s: Proto, m: MainAction)
    requires MainEnabled(s, m) && TimeoutInv(s)
    ensures var t := MainNext(s, m); t.regs.timeout <==> t.regs.rxBuf != [] && s.regs.timeout
  {
    if m.Write? {
      WriteFrame(s.regs, m.offset, m.val);
      WriteAccepts(s.regs, m.offset, m.val);
    }
  }

  lemma InputOnTimeout(s: Proto, i: InputAction)
    requires InputEnabled(s, i) && TimeoutInv(s)
    ensures AfterTimeoutStep(s.regs, Input(i), InputNext(s, i).regs)
  {
  }

  lemma OutputOnReceive(s: Proto, o: OutputAction)
    requires OutputEnabled(s, o)
    ensures OutputNext(s, o).regs.rxBuf == s.regs.rxBuf && OutputNext(s, o).regs.timeout == s.regs.timeout
  {
  }

  lemma LockOnReceive(s: Proto)
    requires s.lock.Held?
    ensures LockNext(s).regs.rxBuf == s.regs.rxBuf && LockNext(s).regs.timeout == s.regs.timeout
  {
  }

  lemma {:induction false} LastStepOnTimedOut(schedule: seq<Action>, n: nat)
    requires |schedule| == n + 1
    ensures TimedOut(schedule) <==>
              && HasUnread(schedule, n + 1)
              && ((schedule[n] == Input(MarkTimeout) && HasUnread(schedule, n)) || TimedOut(schedule[..n]))
  {
    forall j | 0 <= j <= n
      ensures HasUnread(schedule[..n], j) <==> HasUnread(schedule, j)
    {
      assert schedule[..n][..j] == schedule[..j];
    }
    if k :| TimedOutAt(schedule[..n], k) && HasUnread(schedule, n + 1) {
      assert TimedOutAt(schedule, k);
    }
    if schedule[n] == Input(MarkTimeout) && HasUnread(schedule, n) && HasUnread(schedule, n + 1) {
      assert TimedOutAt(schedule, n);
    }
    if k :| TimedOutAt(schedule, k) {
      assert HasUnread(schedule, n) && HasUnread(schedule, n + 1);
      if k < n {
        assert TimedOutAt(schedule[..n], k);
      }
    }
  }

  // ----- levels -----

  /** The conditions of the three lines and of the bits of the status word, in terms of the run alone. */
  ghost predicate TxDue(schedule: seq<Action>, s: Proto) {
    Bit(LastWritten(schedule, 0x14, 1), 5) && 2 * Outstanding(s) <= FifoSize(schedule)
  }

  ghost predicate RxDue(schedule: seq<Action>, s: Proto) {
    Bit(LastWritten(schedule, 0x14, 1), 4) && 2 * Unread(s) >= FifoSize(schedule)
  }

  ghost predicate TimeoutDue(schedule: seq<Action>) {
    Bit(LastWritten(schedule, 0x14, 1), 6) && TimedOut(schedule)
  }

  ghost predicate ModemDue(schedule: seq<Action>) {
    Bit(LastWritten(schedule, 0x14, 1), 3) && BusyChangedSinceClear(schedule)
  }

  ghost predicate LineDue(schedule: seq<Action>, s: Proto, line: Line) {
    match line
    case TxLine => TxDue(schedule, s)
    case RxLine => RxDue(schedule, s)
    case ComboLine => TxDue(schedule, s) || RxDue(schedule, s) || TimeoutDue(schedule) || ModemDue(schedule)
  }

  lemma {:induction false} CountsOverRun(schedule: seq<Action>)
    requires Run(schedule).Some?
    ensures var s := Run(schedule).value;
            && s.regs.txBufSize + Uncounted(s.lock) == Outstanding(s)
            && |s.regs.rxBuf| == Unread(s)
            && s.regs.line.fifoSize == FifoSize(schedule)
            && s.regs.ctrl == LastWritten(schedule, 0x14, 1)
            && (s.regs.ctsChange <==> BusyChangedSinceClear(schedule))
  {
    RunSatisfiesInv(schedule);
    SizeIsActivated(schedule);
    ControlIsLastWrite(schedule);
    ModemChangesAreBusyChanges(schedule);
    UnreadIsBuffered(schedule);
  }

  ghost function StatusDue(schedule: seq<Action>, s: Proto): IntId {
    IntId(TimeoutDue(schedule), TxDue(schedule, s), RxDue(schedule, s), ModemDue(schedule))
  }

  lemma {:induction false} StatusOverRun(schedule: seq<Action>)
    requires Run(schedule).Some? && Run(schedule).value.lock == Free
    ensures var s := Run(schedule).value;
            GetIntId(s.regs) == StatusDue(schedule, s)
  {
    CountsOverRun(schedule);
    TimeoutExactly(schedule);
  }

  /** In every run, whenever the lock is free, each interrupt flag is up exactly when its line is due. */
  lemma {:induction false} FlagsOverRun(schedule: seq<Action>, line: Line)
    requires Run(schedule).Some? && Run(schedule).value.lock == Free
    ensures Asserted(Run(schedule).value.regs.flags, line) <==> LineDue(schedule, Run(schedule).value, line)
    ensures Level(Run(schedule).value.regs, line) <==> LineDue(schedule, Run(schedule).value, line)
  {
    StatusOverRun(schedule);
    RunSatisfiesInv(schedule);
    assert Fresh(Run(schedule).value.regs, line);
  }

  /** A read of the interrupt identification register gives these conditions, bit by bit. */
  lemma {:induction false} IntIdReadOverRun(schedule: seq<Action>)
    requires Run(schedule).Some? && MainEnabled(Run(schedule).value, Read(0x1c))
    ensures var s := Run(schedule).value;
            var due := StatusDue(schedule, s);
            ReadSection(s.regs, 0x1c).result
              == Ok(8 * Digit(due.timeout) + 4 * Digit(due.tx) + 2 * Digit(due.rx) + Digit(due.cts))
  {
    StatusOverRun(schedule);
    IntIdRead(Run(schedule).value.regs);
  }

  /** And a read of the flag register gives the fill of the FIFOs and the state of the transmitter. */
  lemma {:induction false} FlagReadOverRun(schedule: seq<Action>)
    requires Run(schedule).Some? && MainEnabled(Run(schedule).value, Read(0x18))
    ensures var s := Run(schedule).value;
            var size := FifoSize(schedule);
            var tx := 0x80 * Digit(Outstanding(s) == 0) + 0x20 * Digit(Outstanding(s) >= size);
            var rx := 0x40 * Digit(Unread(s) >= size) + 0x10 * Digit(Unread(s) == 0);
            var state := if BegunSinceEmpty(schedule) then 0x8 else 0x1;
            ReadSection(s.regs, 0x18).result == Ok(tx + rx + state)
  {
    CountsOverRun(schedule);
    BusyExactly(schedule);
  }
}
