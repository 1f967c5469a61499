/** What the UART promises, over every run of its protocol. */
module UartTheorems {
  import opened Bits
  import opened Memory
  import opened UartState
  import opened UartProtocol
  import opened UartInvariants

  /** The state `s` can be reached. */
  ghost predicate Reachable(s: Proto) {
    exists schedule :: Run(schedule) == Some(s)
  }

  lemma ReachableSatisfiesInv(s: Proto)
    requires Reachable(s)
    ensures Inv(s)
  {
    var schedule :| Run(schedule) == Some(s);
    RunSatisfiesInv(schedule);
  }

  lemma NextIsReachable(s: Proto, a: Action)
    requires Reachable(s) && Enabled(s, a)
    ensures Reachable(Next(s, a))
  {
    var schedule :| Run(schedule) == Some(s);
    assert (schedule + [a])[..|schedule|] == schedule;
    assert Run(schedule + [a]) == Some(Next(s, a));
  }

  // ----- critical sections as wholes -----

  /** The state once the owner of the lock, undisturbed, has done the rest of its work. */
  function Completed(s: Proto): Proto
    decreases WorkLeft(s.lock)
  {
    if s.lock.Held? then Completed(LockNext(s)) else s
  }

  function WorkLeft(l: Lock): nat {
    match l
    case Free => 0
    case Held(_, RefreshFrom(ComboLine, _)) => 1
    case Held(_, RefreshFrom(RxLine, _)) => 2
    case Held(_, RefreshFrom(TxLine, _)) => 3
    case Held(_, CountByte) => 4
  }

  lemma {:induction false} RefreshInSteps(s: Proto, owner: Thread)
    requires s.lock == Held(owner, RefreshFrom(TxLine, GetIntId(s.regs)))
    ensures Completed(s) == s.(regs := Refresh(s.regs), lock := Free,
                               log := s.log.(edges := s.log.edges + RefreshEdges(s.regs)))
  {
    var id := GetIntId(s.regs);
    var tx := LockNext(s);
    var rx := LockNext(tx);
    var e := s.log.edges;
    var a, b := LineEdges(s.regs.flags, TxLine, id), LineEdges(tx.regs.flags, RxLine, id);
    var c := LineEdges(rx.regs.flags, ComboLine, id);
    assert e + a + b + c == e + (a + b + c);
    assert Completed(s) == Completed(tx) && Completed(tx) == Completed(rx) && Completed(rx) == LockNext(rx);
  }

  /** Any critical section that ends in the state `s`, with or without a refresh to follow, leaves what
      the device's methods leave: fresh flags and all edges announced, or nothing further. */
  lemma {:induction false} SectionAsWhole(s: Proto, owner: Thread, refresh: bool)
    requires s.lock == LockAfter(owner, s.regs, refresh)
    ensures Completed(s) == if refresh then
              s.(regs := Refresh(s.regs), lock := Free, log := s.log.(edges := s.log.edges + RefreshEdges(s.regs)))
            else s
  {
    if refresh {
      RefreshInSteps(s, owner);
    }
  }

  /** A register write that nobody interrupts does to registers, channel and bus what the device's
      write method does in one go. */
  lemma WriteAsWhole(s: Proto, offset: nat, val: word)
    requires MainEnabled(s, Write(offset, val))
    ensures var w := WriteSection(s.regs, offset, val);
            var t := if w.send.Some? then CountSent(w.regs) else w.regs;
            var done := Completed(MainNext(s, Write(offset, val)));
            && done.lock == Free
            && done.regs == (if w.refresh then Refresh(t) else t)
            && done.log.edges == s.log.edges + (if w.refresh then RefreshEdges(t) else [])
            && done.ch.deviceTx == s.ch.deviceTx + (if w.send.Some? then [w.send.value] else [])
  {
    WriteAccepts(s.regs, offset, val);
    var w := WriteSection(s.regs, offset, val);
    var n := MainNext(s, Write(offset, val));
    if w.send.Some? {
      assert Completed(n) == Completed(LockNext(n));
      SectionAsWhole(LockNext(n), MainThread, true);
    } else {
      SectionAsWhole(n, MainThread, w.refresh);
    }
  }

  /** The same for a register read. */
  lemma ReadAsWhole(s: Proto, offset: nat)
    requires MainEnabled(s, Read(offset))
    ensures var r := ReadSection(s.regs, offset);
            var done := Completed(MainNext(s, Read(offset)));
            && done.lock == Free
            && done.regs == (if r.refresh then Refresh(r.regs) else r.regs)
            && done.log.edges == s.log.edges + (if r.refresh then RefreshEdges(r.regs) else [])
  {
    SectionAsWhole(MainNext(s, Read(offset)), MainThread, ReadSection(s.regs, offset).refresh);
  }

  // ----- transmit -----

  /** When the output thread takes a byte off the count, the count is not zero: the byte was counted
      before, because the lock was held from handing it over until it was counted. */
  lemma CountNeverUnderflows(s: Proto)
    requires Reachable(s)
    ensures OutputEnabled(s, End) ==> s.regs.txBufSize > 0
    ensures s.regs.txBufSize + Uncounted(s.lock) == |s.ch.deviceTx| + InFlight(s.output) + s.log.drained
  {
    ReachableSatisfiesInv(s);
  }

  /** Bytes come out in the order in which they were accepted, none lost, doubled or swapped; and
      once the device is dropped they are all out, even those still queued at the exit signal. */
  lemma AcceptedBytesAreDelivered(s: Proto)
    requires Reachable(s)
    ensures s.log.delivered <= s.log.accepted
    ensures s.log.accepted
         == s.log.delivered + HeldByWriter(s.writer) + s.ch.uartTx + HeldByOutput(s.output) + s.ch.deviceTx
    ensures s.main == Dropped ==> s.log.delivered == s.log.accepted
  {
    ReachableSatisfiesInv(s);
  }

  /** The bits of the flag register. */
  lemma FlagBits(s: Regs)
    ensures Bit(FlagWord(s), 7) <==> s.txBufSize == 0
    ensures Bit(FlagWord(s), 6) <==> |s.rxBuf| >= s.line.fifoSize
    ensures Bit(FlagWord(s), 5) <==> s.txBufSize >= s.line.fifoSize
    ensures Bit(FlagWord(s), 4) <==> s.rxBuf == []
    ensures Bit(FlagWord(s), 3) <==> s.busy
    ensures Bit(FlagWord(s), 0) <==> !s.busy
  {
    var high := FourBits(s.txBufSize == 0, |s.rxBuf| >= s.line.fifoSize, s.txBufSize >= s.line.fifoSize, s.rxBuf == []);
    var low := FourBits(s.busy, false, false, !s.busy);
    FourBitsAre(s.txBufSize == 0, |s.rxBuf| >= s.line.fifoSize, s.txBufSize >= s.line.fifoSize, s.rxBuf == []);
    assert FlagWord(s) == 16 * high + low;
    NibbleBits(high, low);
    FourBitsAre(s.busy, false, false, !s.busy);
  }

  lemma NibbleBits(high: nat, low: nat)
    requires low < 16
    ensures forall k: nat :: k < 4 ==> Bit(16 * high + low, k + 4) == Bit(high, k)
    ensures Bit(16 * high + low, 3) == Bit(low, 3)
    ensures Bit(16 * high + low, 0) == Bit(low, 0)
  {
    var x := 16 * high + low;
    assert x / 2 == 8 * high + low / 2;
    assert x / 2 / 2 == 4 * high + low / 2 / 2;
    assert x / 2 / 2 / 2 == 2 * high + low / 2 / 2 / 2;
    BitOfHalf(x, 2);
    BitOfHalf(x / 2, 1);
    BitOfHalf(x / 2 / 2, 0);
    BitOfHalf(low, 2);
    BitOfHalf(low / 2, 1);
    BitOfHalf(low / 2 / 2, 0);
    forall k: nat | k < 4
      ensures Bit(x, k + 4) == Bit(high, k)
    {
      BitOfHalf(x, k + 3);
      BitOfHalf(x / 2, k + 2);
      BitOfHalf(x / 2 / 2, k + 1);
      BitOfHalf(x / 2 / 2 / 2, k);
      assert x / 2 / 2 / 2 / 2 == high;
    }
  }

  /** No read of the flag register shows an empty transmit FIFO (bit 7) with a busy transmitter
      (bit 3), nor an empty transmit FIFO without clear-to-send (bit 0). */
  lemma FlagRegisterIsConsistent(s: Proto)
    requires Reachable(s) && MainEnabled(s, Read(0x18))
    ensures var w := ReadSection(s.regs, 0x18).result;
            w.Ok? && !(Bit(w.value, 7) && Bit(w.value, 3)) && (Bit(w.value, 7) ==> Bit(w.value, 0))
  {
    ReachableSatisfiesInv(s);
    FlagBits(s.regs);
  }

  // ----- receive -----

  /** The bytes read and still buffered are exactly the received bytes that were not dropped, in
      order; every byte that arrived was dealt with, is held or waits in the channel; and the status
      register tells whether a byte was dropped since it was last written. */
  lemma ReceivedBytesAreConserved(s: Proto)
    requires Reachable(s)
    ensures s.log.readBytes + s.regs.rxBuf == KeptBytes(s.log.rxEvents)
    ensures s.log.arrived == Handled(s.log.rxEvents) + HeldByInput(s.input) + s.ch.uartRx
    ensures ReadSection(s.regs, 0x04).result == Ok(if LostSinceClear(s.log.rxEvents) then 8 else 0)
  {
    ReachableSatisfiesInv(s);
    OverrunDueExactly(s.log.rxEvents);
  }

  /** An input thread parked without a timeout left no unread byte unannounced: if bytes are unread
      and the receive timeout interrupt is enabled, the combined line is asserted. */
  lemma NoTimeoutIsLost(s: Proto)
    requires Reachable(s) && s.input == Waiting(false)
    ensures s.regs.rxBuf == [] || s.regs.timeout
    ensures s.regs.rxBuf != [] && Bit(s.regs.ctrl, 6) && s.lock == Free ==> s.regs.flags.combo
    ensures s.regs.timeout ==> s.regs.rxBuf != []
  {
    ReachableSatisfiesInv(s);
  }

  // ----- interrupts -----

  /** Whenever the lock is free, each flag is the line's level as the device's masks read it off the
      status word, and an asserted transmit or receive line has the combined line asserted too. */
  lemma FlagsAreFreshAtRelease(s: Proto)
    requires Reachable(s) && s.lock == Free
    ensures s.regs.flags.tx <==> And(IntIdWord(GetIntId(s.regs)), 4) != 0
    ensures s.regs.flags.rx <==> And(IntIdWord(GetIntId(s.regs)), 2) != 0
    ensures s.regs.flags.combo <==> And(IntIdWord(GetIntId(s.regs)), 15) != 0
    ensures s.regs.flags.tx || s.regs.flags.rx ==> s.regs.flags.combo
  {
    ReachableSatisfiesInv(s);
    assert Fresh(s.regs, TxLine) && Fresh(s.regs, RxLine) && Fresh(s.regs, ComboLine);
    LevelIsMaskTest(GetIntId(s.regs));
    ComboCovers(s.regs);
  }

  /** The bus sees pure edges: on each line the announced levels are up, down, up, down, ... and the
      last one is the flag. */
  lemma {:induction false} AnnouncementsAlternate(s: Proto, line: Line)
    requires Reachable(s)
    ensures forall k :: 0 <= k < |LevelsOf(s.log.edges, line)| ==> LevelsOf(s.log.edges, line)[k] == (k % 2 == 0)
    ensures Asserted(s.regs.flags, line) <==> |LevelsOf(s.log.edges, line)| % 2 == 1
  {
    ReachableSatisfiesInv(s);
    assert LineHistory(s.regs.flags, s.log.edges, line);
  }

  // ----- modem changes -----

  lemma {:induction false} SendingIsBusy(schedule: seq<Action>)
    requires Run(schedule).Some?
    ensures var s := Run(schedule).value; s.output.Sending? || s.output == Sent ==> s.regs.busy
  {
    if schedule != [] {
      SendingIsBusy(schedule[..|schedule| - 1]);
      StepKeepsSendingBusy(Run(schedule[..|schedule| - 1]).value, schedule[|schedule| - 1]);
    }
  }

  lemma StepKeepsSendingBusy(s: Proto, a: Action)
    requires Enabled(s, a) && (s.output.Sending? || s.output == Sent ==> s.regs.busy)
    ensures Next(s, a).output.Sending? || Next(s, a).output == Sent ==> Next(s, a).regs.busy
  {
    match a
    case Main(Read(offset)) => ReadFrame(s.regs, offset);
    case Main(Write(offset, val)) => WriteFrame(s.regs, offset, val);
    case _ =>
  }

  predicate ClearsModemChange(a: Action) {
    a.Main? && a.m.Write? && a.m.offset == 0x1c
  }

  /** The transmitter went busy or idle in step `k` of the run. */
  ghost predicate BusyChangedAt(schedule: seq<Action>, k: int) {
    && 0 <= k < |schedule|
    && Run(schedule[..k]).Some? && Run(schedule[..k + 1]).Some?
    && Run(schedule[..k]).value.regs.busy != Run(schedule[..k + 1]).value.regs.busy
  }

  /** It did so, and the interrupt clear register was not written since. */
  ghost predicate PendingSince(schedule: seq<Action>, k: int) {
    BusyChangedAt(schedule, k) && forall j :: k < j < |schedule| ==> !ClearsModemChange(schedule[j])
  }

  ghost predicate BusyChangedSinceClear(schedule: seq<Action>) {
    exists k :: PendingSince(schedule, k)
  }

  /** In every run a modem change is pending exactly when the transmitter went busy or idle since the last
      write of the interrupt clear register. */
  lemma {:induction false} ModemChangesAreBusyChanges(schedule: seq<Action>)
    requires Run(schedule).Some?
    ensures Run(schedule).value.regs.ctsChange <==> BusyChangedSinceClear(schedule)
  {
    if schedule != [] {
      var n := |schedule| - 1;
      ModemChangesAreBusyChanges(schedule[..n]);
      StepOnModemChange(Run(schedule[..n]).value, schedule[n]);
      LastStepOnPending(schedule, n);
      assert schedule[..n + 1] == schedule;
    }
  }

  lemma {:induction false} BusyChangedInPrefix(schedule: seq<Action>, n: nat, k: nat)
    requires k < n <= |schedule|
    ensures BusyChangedAt(schedule, k) <==> BusyChangedAt(schedule[..n], k)
  {
    assert schedule[..n][..k] == schedule[..k] && schedule[..n][..k + 1] == schedule[..k + 1];
  }

  lemma {:induction false} EarlierPending(schedule: seq<Action>, n: nat, k: nat)
    requires |schedule| == n + 1 && k < n
    ensures PendingSince(schedule, k) <==> PendingSince(schedule[..n], k) && !ClearsModemChange(schedule[n])
  {
    BusyChangedInPrefix(schedule, n, k);
  }

  lemma {:induction false} LastStepOnPending(schedule: seq<Action>, n: nat)
    requires |schedule| == n + 1
    ensures BusyChangedSinceClear(schedule) <==>
              || PendingSince(schedule, n)
              || (!ClearsModemChange(schedule[n]) && BusyChangedSinceClear(schedule[..n]))
  {
    if k :| PendingSince(schedule[..n], k) && !ClearsModemChange(schedule[n]) {
      EarlierPending(schedule, n, k);
    }
    if k :| PendingSince(schedule, k) {
      if k < n {
        EarlierPending(schedule, n, k);
      }
    }
  }

  /** Step by step: no other step records a change, none is missed, and no other step clears it. */
  lemma {:induction false} StepOnModemChange(s: Proto, a: Action)
    requires Reachable(s) && Enabled(s, a)
    ensures Next(s, a).regs.ctsChange
       <==> !ClearsModemChange(a) && (s.regs.ctsChange || Next(s, a).regs.busy != s.regs.busy)
    ensures ClearsModemChange(a) ==> Next(s, a).regs.busy == s.regs.busy
  {
    ReachableSendingIsBusy(s);
    match a
    case Main(m) => MainModemChange(s, m);
    case Output(o) => OutputModemChange(s, o);
    case Input(i) => InputModemChange(s, i);
    case _ =>
  }

  lemma ReachableSendingIsBusy(s: Proto)
    requires Reachable(s)
    ensures s.output == Sent ==> s.regs.busy
  {
    var schedule :| Run(schedule) == Some(s);
    SendingIsBusy(schedule);
  }

  lemma InputModemChange(s: Proto, i: InputAction)
    requires InputEnabled(s, i)
    ensures InputNext(s, i).regs.busy == s.regs.busy && InputNext(s, i).regs.ctsChange == s.regs.ctsChange
  {
    match i
    case Store =>
      assert InputNext(s, i).regs == StoreSection(s.regs, s.input.b);
    case MarkTimeout =>
      assert InputNext(s, i).regs == ExpireSection(s.regs);
    case _ =>
  }

  lemma MainModemChange(s: Proto, m: MainAction)
    requires MainEnabled(s, m)
    ensures MainNext(s, m).regs.busy == s.regs.busy
    ensures MainNext(s, m).regs.ctsChange == (!ClearsModemChange(Main(m)) && s.regs.ctsChange)
  {
    match m
    case Read(offset) => ReadFrame(s.regs, offset);
    case Write(offset, val) =>
      WriteFrame(s.regs, offset, val);
      WriteModemChange(s.regs, offset, val);
    case _ =>
  }

  lemma OutputModemChange(s: Proto, o: OutputAction)
    requires OutputEnabled(s, o) && (s.output == Sent ==> s.regs.busy)
    ensures OutputNext(s, o).regs.ctsChange
       <==> s.regs.ctsChange || OutputNext(s, o).regs.busy != s.regs.busy
  {
    match o
    case Begin =>
      assert OutputNext(s, o).regs == BeginSection(s.regs);
    case End =>
      assert OutputNext(s, o).regs == EndSection(s.regs);
    case _ =>
  }

  // ----- FIFO sizes -----

  /** The bounds that survive every reconfiguration. */
  lemma FifosAreBounded(s: Proto)
    requires Reachable(s)
    ensures 0 <= s.regs.txBufSize <= 16
    ensures !s.log.everInfinite ==> |s.regs.rxBuf| <= 16
  {
    ReachableSatisfiesInv(s);
  }

  lemma ReachableIsBounded(s: Proto)
    requires Reachable(s)
    ensures CountInv(s) && BoundInv(s)
  {
    ReachableSatisfiesInv(s);
  }

  /** The write that turns the FIFOs off: a first line control word without the FIFO enable bit. */
  predicate TurnsFifoOff(a: Action) {
    a.Main? && a.m.Write? && a.m.offset == 0x08 && !Bit(a.m.val, 4)
  }

  /** The count may exceed the current FIFO size, and exactly one kind of step makes it do so: turning
      the FIFOs off with more than one byte counted. */
  lemma TxExceedsFifoExactly(s: Proto, a: Action)
    requires Reachable(s) && Enabled(s, a)
    requires s.regs.txBufSize + Uncounted(s.lock) <= s.regs.line.fifoSize
    ensures Next(s, a).regs.txBufSize + Uncounted(Next(s, a).lock) > Next(s, a).regs.line.fifoSize
       <==> TurnsFifoOff(a) && s.regs.txBufSize > 1
  {
    ReachableIsBounded(s);
    match a
    case Main(m) => MainTxExceeds(s, m);
    case Output(o) => OutputKeepsSizes(s, o);
    case Input(i) => InputKeepsSizes(s, i);
    case _ =>
  }

  lemma MainTxExceeds(s: Proto, m: MainAction)
    requires CountInv(s) && BoundInv(s) && MainEnabled(s, m)
    requires s.regs.txBufSize + Uncounted(s.lock) <= s.regs.line.fifoSize
    ensures MainNext(s, m).regs.txBufSize + Uncounted(MainNext(s, m).lock) > MainNext(s, m).regs.line.fifoSize
       <==> TurnsFifoOff(Main(m)) && s.regs.txBufSize > 1
  {
    match m
    case Read(offset) => ReadFrame(s.regs, offset);
    case Write(offset, val) =>
      WriteFrame(s.regs, offset, val);
      WriteAccepts(s.regs, offset, val);
      WriteResizes(s.regs, offset, val);
    case _ =>
  }

  /** Only the write that activates line control changes the FIFO size. */
  lemma {:induction false} WriteResizes(s: Regs, offset: nat, val: word)
    requires WriteDefined(s, offset, val)
    ensures WriteSection(s, offset, val).regs.line.fifoSize
         == if offset == 0x08 then (if Bit(val, 4) then 16 else 1) else s.line.fifoSize
  {
  }

  lemma InputKeepsSizes(s: Proto, i: InputAction)
    requires InputEnabled(s, i)
    ensures InputNext(s, i).regs.line == s.regs.line
    ensures InputNext(s, i).regs.txBufSize == s.regs.txBufSize
    ensures Uncounted(InputNext(s, i).lock) <= Uncounted(s.lock)
  {
    match i
    case Store =>
      assert StoreSection(s.regs, s.input.b).line == s.regs.line;
    case MarkTimeout =>
      assert ExpireSection(s.regs).line == s.regs.line;
    case _ =>
  }

  lemma OutputKeepsSizes(s: Proto, o: OutputAction)
    requires OutputEnabled(s, o)
    ensures OutputNext(s, o).regs.line == s.regs.line
    ensures OutputNext(s, o).regs.txBufSize <= s.regs.txBufSize
    ensures Uncounted(OutputNext(s, o).lock) <= Uncounted(s.lock)
  {
    match o
    case Begin =>
      assert BeginSection(s.regs).line == s.regs.line;
    case End =>
      assert EndSection(s.regs).line == s.regs.line;
    case _ =>
  }

  /** The receive FIFO exceeds its size in that case too, and when it is made infinite and full. */
  lemma RxExceedsFifoExactly(s: Proto, a: Action)
    requires Reachable(s) && Enabled(s, a) && |s.regs.rxBuf| <= s.regs.line.fifoSize
    ensures |Next(s, a).regs.rxBuf| > Next(s, a).regs.line.fifoSize
       <==> || (TurnsFifoOff(a) && |s.regs.rxBuf| > 1)
            || (a == Input(Store) && s.regs.infiniteRx && |s.regs.rxBuf| == s.regs.line.fifoSize)
  {
    ReachableIsBounded(s);
    match a
    case Main(m) => MainRxExceeds(s, m);
    case Output(o) => OutputKeepsRx(s, o);
    case Input(i) => InputRxExceeds(s, i);
    case _ =>
  }

  lemma MainRxExceeds(s: Proto, m: MainAction)
    requires BoundInv(s) && MainEnabled(s, m) && |s.regs.rxBuf| <= s.regs.line.fifoSize
    ensures |MainNext(s, m).regs.rxBuf| > MainNext(s, m).regs.line.fifoSize
       <==> TurnsFifoOff(Main(m)) && |s.regs.rxBuf| > 1
  {
    match m
    case Write(offset, val) =>
      WriteFrame(s.regs, offset, val);
      WriteResizes(s.regs, offset, val);
    case _ =>
  }

  lemma OutputKeepsRx(s: Proto, o: OutputAction)
    requires OutputEnabled(s, o)
    ensures OutputNext(s, o).regs.line == s.regs.line && OutputNext(s, o).regs.rxBuf == s.regs.rxBuf
  {
    match o
    case Begin =>
      assert BeginSection(s.regs).line == s.regs.line;
    case End =>
      assert EndSection(s.regs).line == s.regs.line;
    case _ =>
  }

  lemma InputRxExceeds(s: Proto, i: InputAction)
    requires InputEnabled(s, i) && |s.regs.rxBuf| <= s.regs.line.fifoSize
    ensures |InputNext(s, i).regs.rxBuf| > InputNext(s, i).regs.line.fifoSize
       <==> i == Store && s.regs.infiniteRx && |s.regs.rxBuf| == s.regs.line.fifoSize
  {
    InputKeepsSizes(s, i);
    match i
    case Store =>
      assert InputNext(s, i).regs == StoreSection(s.regs, s.input.b);
    case MarkTimeout =>
      assert InputNext(s, i).regs == ExpireSection(s.regs);
    case _ =>
  }

  /** The count really can exceed the current FIFO size: after two data writes, the FIFOs are turned off. */
  lemma TxCanExceedFifo() returns (s: Proto)
    ensures Reachable(s) && s.regs.line.fifoSize == 1 && s.regs.txBufSize == 2
  {
    assert Run([]) == Some(Init());
    var t := AfterDataWrite(Init(), 7);
    t := AfterDataWrite(t, 8);
    BitOfZero(4);
    NextIsReachable(t, Main(Write(0x08, 0)));
    s := Next(t, Main(Write(0x08, 0)));
  }

  /** And so can the receive buffer: after two received bytes, the FIFOs are turned off. */
  lemma RxCanExceedFifo() returns (s: Proto)
    ensures Reachable(s) && s.regs.line.fifoSize == 1 && |s.regs.rxBuf| == 2 && !s.log.everInfinite
  {
    assert Run([]) == Some(Init());
    var t := AfterReceivedByte(Init(), 7);
    t := AfterReceivedByte(t, 8);
    BitOfZero(4);
    NextIsReachable(t, Main(Write(0x08, 0)));
    s := Next(t, Main(Write(0x08, 0)));
  }

  /** A byte arrives and the input thread stores it without interruption. */
  lemma AfterReceivedByte(s: Proto, b: byte) returns (t: Proto)
    requires Reachable(s) && s.lock == Free && s.main == Running && s.input == Deciding
    requires s.ch.uartRx == [] && |s.regs.rxBuf| < s.regs.line.fifoSize
    ensures Reachable(t) && t.lock == Free && t.main == Running && t.input == Deciding && t.ch.uartRx == []
    ensures t.regs == s.regs.(rxBuf := s.regs.rxBuf + [b], flags := t.regs.flags)
    ensures t.log.everInfinite == s.log.everInfinite
  {
    NextIsReachable(s, Arrive(b));
    t := Next(s, Arrive(b));
    NextIsReachable(t, Input(Decide));
    t := Next(t, Input(Decide));
    NextIsReachable(t, Input(ReceiveByte));
    t := Next(t, Input(ReceiveByte));
    NextIsReachable(t, Input(Store));
    t := Next(t, Input(Store));
    t := AfterRefresh(t);
  }

  /** A data write that is accepted and runs to the release of the lock without interruption. */
  lemma AfterDataWrite(s: Proto, val: word) returns (t: Proto)
    requires Reachable(s) && s.lock == Free && s.main == Running && s.regs.txBufSize < s.regs.line.fifoSize
    ensures Reachable(t) && t.lock == Free && t.main == Running
    ensures t.regs == s.regs.(txBufSize := s.regs.txBufSize + 1, flags := t.regs.flags)
  {
    var a := Main(Write(0x00, val));
    NextIsReachable(s, a);
    t := Next(s, a);
    NextIsReachable(t, LockStep);
    t := Next(t, LockStep);
    t := AfterRefresh(t);
  }

  lemma AfterRefresh(s: Proto) returns (t: Proto)
    requires Reachable(s) && s.lock.Held? && s.lock.work.RefreshFrom? && s.lock.work.line == TxLine
    ensures Reachable(t)
    ensures t == s.(lock := Free, regs := s.regs.(flags := t.regs.flags), log := s.log.(edges := t.log.edges))
  {
    NextIsReachable(s, LockStep);
    t := Next(s, LockStep);
    NextIsReachable(t, LockStep);
    t := Next(t, LockStep);
    NextIsReachable(t, LockStep);
    t := Next(t, LockStep);
  }
}
