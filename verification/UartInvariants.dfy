/** What every step of the UART protocol keeps, and what therefore holds over every run. */
module UartInvariants {
  import Bits
  import opened Memory
  import opened UartState
  import opened UartProtocol

  // ----- the lock -----

  /** A thread that holds the lock is where it waits to take its next step. */
  ghost predicate LockInv(s: Proto) {
    s.lock.Held? ==>
      match s.lock.owner
      case MainThread => s.main == Running
      case InputThread => s.input == Deciding && s.lock.work != CountByte
      case OutputThread => (s.output == Selecting || s.output.Sending?) && s.lock.work != CountByte
  }

  lemma StepKeepsLockInv(s: Proto, a: Action)
    requires LockInv(s) && Enabled(s, a)
    ensures LockInv(Next(s, a))
  {
  }

  // ----- interrupt flags -----

  /** Flags lag behind their levels only during a refresh, and then only those not visited yet. */
  ghost predicate FreshInv(s: Proto) {
    match s.lock
    case Free => AllFresh(s.regs)
    case Held(_, CountByte) => AllFresh(s.regs)
    case Held(_, RefreshFrom(line, id)) =>
      && id == GetIntId(s.regs)
      && (line != TxLine ==> Fresh(s.regs, TxLine))
      && (line == ComboLine ==> Fresh(s.regs, RxLine))
  }

  lemma StepKeepsFreshInv(s: Proto, a: Action)
    requires FreshInv(s) && Enabled(s, a)
    ensures FreshInv(Next(s, a))
  {
    match a
    case Arrive(_) =>
    case LockStep => LockKeepsFreshInv(s);
    case Main(m) => MainKeepsFreshInv(s, m);
    case Input(i) => InputKeepsFreshInv(s, i);
    case Output(o) => OutputKeepsFreshInv(s, o);
    case Writer(w) =>
  }

  lemma LockKeepsFreshInv(s: Proto)
    requires FreshInv(s) && s.lock.Held?
    ensures FreshInv(LockNext(s))
  {
    if s.lock.work.RefreshFrom? {
      assert GetIntId(LockNext(s).regs) == GetIntId(s.regs);
    }
  }

  lemma InputKeepsFreshInv(s: Proto, i: InputAction)
    requires FreshInv(s) && InputEnabled(s, i)
    ensures FreshInv(InputNext(s, i))
  {
  }

  lemma OutputKeepsFreshInv(s: Proto, o: OutputAction)
    requires FreshInv(s) && OutputEnabled(s, o)
    ensures FreshInv(OutputNext(s, o))
  {
  }

  lemma MainKeepsFreshInv(s: Proto, m: MainAction)
    requires FreshInv(s) && MainEnabled(s, m)
    ensures FreshInv(MainNext(s, m))
  {
    match m
    case Read(offset) =>
      if !ReadSection(s.regs, offset).refresh {
        SkippedRefreshAfterRead(s.regs, offset);
      }
    case Write(offset, val) =>
      if !WriteSection(s.regs, offset, val).refresh {
        SkippedRefreshAfterWrite(s.regs, offset, val);
      }
    case HackInfiniteRx(_) =>
    case HackNodelayTx(_) =>
    case Drop =>
    case DropNext =>
  }

  // ----- transmit count -----

  /** Bytes handed over under the lock and not counted yet. */
  function Uncounted(l: Lock): nat {
    if l.Held? && l.work == CountByte then 1 else 0
  }

  /** Bytes the output thread has taken and not taken off the count yet. */
  function InFlight(o: OutputPc): nat {
    if o.Taken? || o.Sending? || o == Sent then 1 else 0
  }

  /** The count, with a pending increment, is the queued bytes plus the one in flight; bytes taken
      after the exit signal stay counted. */
  ghost predicate CountInv(s: Proto) {
    && s.regs.txBufSize + Uncounted(s.lock) == |s.ch.deviceTx| + InFlight(s.output) + s.log.drained
    && s.regs.txBufSize >= 0
    && (s.regs.busy ==> s.regs.txBufSize > 0)
  }

  lemma StepKeepsCountInv(s: Proto, a: Action)
    requires LockInv(s) && CountInv(s) && Enabled(s, a)
    ensures CountInv(Next(s, a))
  {
    match a
    case Arrive(_) =>
    case LockStep => LockKeepsCountInv(s);
    case Main(m) => MainKeepsCountInv(s, m);
    case Input(i) => InputKeepsCountInv(s, i);
    case Output(o) => OutputKeepsCountInv(s, o);
    case Writer(w) =>
  }

  lemma LockKeepsCountInv(s: Proto)
    requires CountInv(s) && s.lock.Held?
    ensures CountInv(LockNext(s))
  {
  }

  lemma MainKeepsCountInv(s: Proto, m: MainAction)
    requires CountInv(s) && MainEnabled(s, m)
    ensures CountInv(MainNext(s, m))
  {
    match m
    case Read(offset) => ReadFrame(s.regs, offset);
    case Write(offset, val) =>
      WriteFrame(s.regs, offset, val);
      WriteAccepts(s.regs, offset, val);
    case HackInfiniteRx(_) =>
    case HackNodelayTx(_) =>
    case Drop =>
    case DropNext =>
  }

  lemma InputKeepsCountInv(s: Proto, i: InputAction)
    requires CountInv(s) && InputEnabled(s, i)
    ensures CountInv(InputNext(s, i))
  {
  }

  lemma OutputKeepsCountInv(s: Proto, o: OutputAction)
    requires LockInv(s) && CountInv(s) && OutputEnabled(s, o)
    ensures CountInv(OutputNext(s, o))
  {
  }

  // ----- transmit delivery -----

  function HeldByOutput(o: OutputPc): seq<byte> {
    match o
    case Taken(b) => [b]
    case Sending(b) => [b]
    case DrainTaken(b) => [b]
    case _ => []
  }

  function HeldByWriter(w: WriterPc): seq<byte> {
    match w
    case Writing(b) => [b]
    case _ => []
  }

  /** Every accepted byte is, in order, written out, or held or queued on its way. */
  ghost predicate DeliveryInv(s: Proto) {
    s.log.accepted == s.log.delivered + HeldByWriter(s.writer) + s.ch.uartTx + HeldByOutput(s.output) + s.ch.deviceTx
  }

  lemma StepKeepsDeliveryInv(s: Proto, a: Action)
    requires DeliveryInv(s) && Enabled(s, a)
    ensures DeliveryInv(Next(s, a))
  {
    match a
    case Arrive(_) =>
    case LockStep =>
    case Main(m) => MainKeepsDeliveryInv(s, m);
    case Input(i) =>
    case Output(o) => OutputKeepsDeliveryInv(s, o);
    case Writer(w) => WriterKeepsDeliveryInv(s, w);
  }

  lemma MainKeepsDeliveryInv(s: Proto, m: MainAction)
    requires DeliveryInv(s) && MainEnabled(s, m)
    ensures DeliveryInv(MainNext(s, m))
  {
    if m.Write? {
      var before := s.log.delivered + HeldByWriter(s.writer) + s.ch.uartTx + HeldByOutput(s.output);
      var w := WriteSection(s.regs, m.offset, m.val);
      if w.send.Some? {
        assert before + (s.ch.deviceTx + [w.send.value]) == before + s.ch.deviceTx + [w.send.value];
      }
    }
  }

  lemma OutputKeepsDeliveryInv(s: Proto, o: OutputAction)
    requires DeliveryInv(s) && OutputEnabled(s, o)
    ensures DeliveryInv(OutputNext(s, o))
  {
    var before := s.log.delivered + HeldByWriter(s.writer);
    match o
    case TakeByte | Drain =>
      assert s.ch.deviceTx == [s.ch.deviceTx[0]] + s.ch.deviceTx[1..];
    case SendByte | DrainSend =>
      assert before + s.ch.uartTx + [s.output.b] == before + (s.ch.uartTx + [s.output.b]) + [];
    case _ =>
  }

  lemma WriterKeepsDeliveryInv(s: Proto, w: WriterAction)
    requires DeliveryInv(s) && WriterEnabled(s, w)
    ensures DeliveryInv(WriterNext(s, w))
  {
    match w
    case TakeOutput =>
      assert s.log.delivered + [] + s.ch.uartTx == s.log.delivered + [s.ch.uartTx[0]] + s.ch.uartTx[1..];
    case WriteOut =>
      assert s.log.delivered + [s.writer.b] == (s.log.delivered + [s.writer.b]) + [];
    case Hangup =>
  }

  // ----- receive side -----

  /** The bytes the input thread has dealt with. */
  function Handled(events: seq<RxEvent>): seq<byte> {
    if events == [] then []
    else
      Handled(events[..|events| - 1])
      + match events[|events| - 1]
        case Kept(b) => [b]
        case Lost(b) => [b]
        case StatusCleared => []
  }

  /** Those of them that it did not drop. */
  function KeptBytes(events: seq<RxEvent>): seq<byte> {
    if events == [] then []
    else
      KeptBytes(events[..|events| - 1])
      + match events[|events| - 1]
        case Kept(b) => [b]
        case _ => []
  }

  /** A byte was dropped, and the status register was not written after that. */
  ghost predicate LostSinceClear(events: seq<RxEvent>) {
    exists k :: 0 <= k < |events| && events[k].Lost? && forall j :: k < j < |events| ==> events[j] != StatusCleared
  }

  lemma LostSinceClearAppend(events: seq<RxEvent>, e: RxEvent)
    ensures LostSinceClear(events + [e]) <==> e.Lost? || (e != StatusCleared && LostSinceClear(events))
  {
    var all := events + [e];
    if e.Lost? {
      assert all[|events|].Lost?;
    } else if e != StatusCleared && LostSinceClear(events) {
      var k :| 0 <= k < |events| && events[k].Lost? && forall j :: k < j < |events| ==> events[j] != StatusCleared;
      assert all[k].Lost? && forall j :: k < j < |all| ==> all[j] != StatusCleared;
    } else {
      forall k | 0 <= k < |all| && all[k].Lost?
        ensures exists j :: k < j < |all| && all[j] == StatusCleared
      {
        if e == StatusCleared {
          assert all[|events|] == StatusCleared;
        } else {
          assert events[k].Lost?;
          var j :| k < j < |events| && events[j] == StatusCleared;
          assert all[j] == StatusCleared;
        }
      }
    }
  }

  /** The same, event by event. */
  predicate OverrunDue(events: seq<RxEvent>) {
    if events == [] then false
    else
      var e := events[|events| - 1];
      e.Lost? || (e != StatusCleared && OverrunDue(events[..|events| - 1]))
  }

  lemma {:induction false} OverrunDueExactly(events: seq<RxEvent>)
    ensures OverrunDue(events) <==> LostSinceClear(events)
  {
    if events != [] {
      var before, e := events[..|events| - 1], events[|events| - 1];
      OverrunDueExactly(before);
      LostSinceClearAppend(before, e);
      assert before + [e] == events;
    }
  }

  function HeldByInput(i: InputPc): seq<byte> {
    match i
    case Received(b) => [b]
    case _ => []
  }

  ghost predicate ReceiveInv(s: Proto) {
    && KeptBytes(s.log.rxEvents) == s.log.readBytes + s.regs.rxBuf
    && s.log.arrived == Handled(s.log.rxEvents) + HeldByInput(s.input) + s.ch.uartRx
    && (s.regs.overrun <==> OverrunDue(s.log.rxEvents))
  }

  lemma StepKeepsReceiveInv(s: Proto, a: Action)
    requires ReceiveInv(s) && Enabled(s, a)
    ensures ReceiveInv(Next(s, a))
  {
    match a
    case Arrive(b) => ArrivalKeepsReceiveInv(s, b);
    case LockStep => LockKeepsReceiveInv(s);
    case Main(m) => MainKeepsReceiveInv(s, m);
    case Input(i) => InputKeepsReceiveInv(s, i);
    case Output(o) => OutputKeepsReceiveInv(s, o);
    case Writer(w) => WriterKeepsReceiveInv(s, w);
  }

  lemma ArrivalKeepsReceiveInv(s: Proto, b: byte)
    requires ReceiveInv(s)
    ensures ReceiveInv(Next(s, Arrive(b)))
  {
    var before := Handled(s.log.rxEvents) + HeldByInput(s.input);
    assert before + (s.ch.uartRx + [b]) == before + s.ch.uartRx + [b];
  }

  lemma MainKeepsReceiveInv(s: Proto, m: MainAction)
    requires ReceiveInv(s) && MainEnabled(s, m)
    ensures ReceiveInv(MainNext(s, m))
  {
    match m
    case Read(offset) => ReadKeepsReceiveInv(s, offset);
    case Write(offset, val) => WriteKeepsReceiveInv(s, offset, val);
    case HackInfiniteRx(_) =>
    case HackNodelayTx(_) =>
    case Drop =>
    case DropNext =>
  }

  lemma ReadKeepsReceiveInv(s: Proto, offset: nat)
    requires ReceiveInv(s) && MainEnabled(s, Read(offset))
    ensures ReceiveInv(MainNext(s, Read(offset)))
  {
    ReadFrame(s.regs, offset);
    ReadTakesFirst(s.regs, offset);
    var r := ReadSection(s.regs, offset);
    if offset == 0x00 && r.result.Ok? {
      assert s.log.readBytes + s.regs.rxBuf == (s.log.readBytes + [r.result.value]) + r.regs.rxBuf;
    }
  }

  lemma WriteKeepsReceiveInv(s: Proto, offset: nat, val: word)
    requires ReceiveInv(s) && MainEnabled(s, Write(offset, val))
    ensures ReceiveInv(MainNext(s, Write(offset, val)))
  {
    WriteFrame(s.regs, offset, val);
    WriteOverrun(s.regs, offset, val);
    WriteAccepts(s.regs, offset, val);
    var events := s.log.rxEvents;
    assert (events + [StatusCleared])[..|events|] == events;
  }

  lemma InputKeepsReceiveInv(s: Proto, i: InputAction)
    requires ReceiveInv(s) && InputEnabled(s, i)
    ensures ReceiveInv(InputNext(s, i))
  {
    match i
    case ReceiveByte =>
      assert s.ch.uartRx == [s.ch.uartRx[0]] + s.ch.uartRx[1..];
    case Store => StoreKeepsReceiveInv(s);
    case _ =>
  }

  lemma StoreKeepsReceiveInv(s: Proto)
    requires ReceiveInv(s) && InputEnabled(s, Store)
    ensures ReceiveInv(InputNext(s, Store))
  {
    StoredByte(s.log.rxEvents, s.input.b, HasRoom(s.regs));
    assert s.log.readBytes + s.regs.rxBuf + [s.input.b] == s.log.readBytes + (s.regs.rxBuf + [s.input.b]);
  }

  lemma {:induction false} StoredByte(events: seq<RxEvent>, b: byte, kept: bool)
    ensures var all := events + [if kept then Kept(b) else Lost(b)];
            && KeptBytes(all) == KeptBytes(events) + (if kept then [b] else [])
            && Handled(all) == Handled(events) + [b]
            && (OverrunDue(all) <==> !kept || OverrunDue(events))
  {
    var all := events + [if kept then Kept(b) else Lost(b)];
    assert all[..|events|] == events;
  }

  lemma LockKeepsReceiveInv(s: Proto)
    requires ReceiveInv(s) && s.lock.Held?
    ensures ReceiveInv(LockNext(s))
  {
  }

  lemma WriterKeepsReceiveInv(s: Proto, w: WriterAction)
    requires ReceiveInv(s) && WriterEnabled(s, w)
    ensures ReceiveInv(WriterNext(s, w))
  {
  }

  lemma OutputKeepsReceiveInv(s: Proto, o: OutputAction)
    requires ReceiveInv(s) && OutputEnabled(s, o)
    ensures ReceiveInv(OutputNext(s, o))
  {
  }

  // ----- receive timeout -----

  /** The timeout condition is only up with bytes in the FIFO, and an input thread that waits without
      a timeout has no reason for one. */
  ghost predicate TimeoutInv(s: Proto) {
    && (s.regs.timeout ==> s.regs.rxBuf != [])
    && (s.input == Waiting(false) ==> s.regs.rxBuf == [] || s.regs.timeout)
  }

  lemma StepKeepsTimeoutInv(s: Proto, a: Action)
    requires TimeoutInv(s) && Enabled(s, a)
    ensures TimeoutInv(Next(s, a))
  {
    match a
    case Main(m) => MainKeepsTimeoutInv(s, m);
    case Output(o) => OutputKeepsTimeoutInv(s, o);
    case Input(i) => InputKeepsTimeoutInv(s, i);
    case _ =>
  }

  lemma MainKeepsTimeoutInv(s: Proto, m: MainAction)
    requires TimeoutInv(s) && MainEnabled(s, m)
    ensures TimeoutInv(MainNext(s, m))
  {
    if m.Write? {
      WriteFrame(s.regs, m.offset, m.val);
    }
  }

  lemma InputKeepsTimeoutInv(s: Proto, i: InputAction)
    requires TimeoutInv(s) && InputEnabled(s, i)
    ensures TimeoutInv(InputNext(s, i))
  {
  }

  lemma OutputKeepsTimeoutInv(s: Proto, o: OutputAction)
    requires TimeoutInv(s) && OutputEnabled(s, o)
    ensures TimeoutInv(OutputNext(s, o))
  {
  }

  // ----- FIFO bounds -----

  /** Neither FIFO ever holds more than 16 bytes, whatever its current size, unless the infinite
      receive FIFO was switched on. */
  ghost predicate BoundInv(s: Proto) {
    && s.regs.line.fifoSize in {1, 16}
    && s.regs.txBufSize + Uncounted(s.lock) <= 16
    && (s.regs.infiniteRx ==> s.log.everInfinite)
    && (!s.log.everInfinite ==> |s.regs.rxBuf| <= 16)
  }

  lemma StepKeepsBoundInv(s: Proto, a: Action)
    requires BoundInv(s) && Enabled(s, a)
    ensures BoundInv(Next(s, a))
  {
    match a
    case Main(m) => MainKeepsBoundInv(s, m);
    case Output(o) => OutputKeepsBoundInv(s, o);
    case Input(i) => InputKeepsBoundInv(s, i);
    case _ =>
  }

  lemma MainKeepsBoundInv(s: Proto, m: MainAction)
    requires BoundInv(s) && MainEnabled(s, m)
    ensures BoundInv(MainNext(s, m))
  {
    match m
    case Read(offset) => ReadFrame(s.regs, offset);
    case Write(offset, val) =>
      WriteFrame(s.regs, offset, val);
      WriteFifoSize(s.regs, offset, val);
      WriteAccepts(s.regs, offset, val);
    case _ =>
  }

  lemma InputKeepsBoundInv(s: Proto, i: InputAction)
    requires BoundInv(s) && InputEnabled(s, i)
    ensures BoundInv(InputNext(s, i))
  {
  }

  lemma OutputKeepsBoundInv(s: Proto, o: OutputAction)
    requires BoundInv(s) && OutputEnabled(s, o)
    ensures BoundInv(OutputNext(s, o))
  {
  }

  // ----- announced edges -----

  /** The levels announced for one line, in order. */
  function LevelsOf(edges: seq<Edge>, line: Line): seq<bool> {
    if edges == [] then []
    else
      LevelsOf(edges[..|edges| - 1], line)
      + if edges[|edges| - 1].line == line then [edges[|edges| - 1].level] else []
  }

  lemma {:induction false} LevelsOfAppend(edges: seq<Edge>, e: Edge, line: Line)
    ensures LevelsOf(edges + [e], line) == LevelsOf(edges, line) + if e.line == line then [e.level] else []
  {
    assert (edges + [e])[..|edges|] == edges;
  }

  /** up, down, up, down, ... */
  ghost predicate Alternates(levels: seq<bool>) {
    forall k :: 0 <= k < |levels| ==> levels[k] == (k % 2 == 0)
  }

  ghost predicate LineHistory(flags: Flags, edges: seq<Edge>, line: Line) {
    Alternates(LevelsOf(edges, line)) && Asserted(flags, line) == (|LevelsOf(edges, line)| % 2 == 1)
  }

  /** Each line announces strict changes, starting with a rise, and its flag is the last of them. */
  ghost predicate EdgeInv(s: Proto) {
    forall line :: LineHistory(s.regs.flags, s.log.edges, line)
  }

  lemma RefreshKeepsHistory(flags: Flags, edges: seq<Edge>, visited: Line, id: IntId, line: Line)
    requires LineHistory(flags, edges, line)
    ensures LineHistory(RefreshLine(flags, visited, id), edges + LineEdges(flags, visited, id), line)
  {
    if LineEdges(flags, visited, id) == [] {
      assert edges + [] == edges;
    } else {
      LevelsOfAppend(edges, Edge(visited, LevelOf(id, visited)), line);
    }
  }

  lemma StepKeepsEdgeInv(s: Proto, a: Action)
    requires EdgeInv(s) && Enabled(s, a)
    ensures EdgeInv(Next(s, a))
    ensures Next(s, a).log.edges == s.log.edges + Emitted(s, a)
  {
    if a == LockStep && s.lock.work.RefreshFrom? {
      forall line
        ensures LineHistory(Next(s, a).regs.flags, Next(s, a).log.edges, line)
      {
        RefreshKeepsHistory(s.regs.flags, s.log.edges, s.lock.work.line, s.lock.work.id, line);
      }
    } else {
      OtherStepsKeepFlags(s, a);
    }
  }

  /** Flags and announcements change in the refresh steps of a critical section only. */
  lemma OtherStepsKeepFlags(s: Proto, a: Action)
    requires Enabled(s, a) && !(a == LockStep && s.lock.work.RefreshFrom?)
    ensures Next(s, a).regs.flags == s.regs.flags && Next(s, a).log.edges == s.log.edges
    ensures Emitted(s, a) == []
  {
    match a
    case Main(m) => MainKeepsFlags(s, m);
    case Output(o) => OutputKeepsFlags(s, o);
    case Input(i) => InputKeepsFlags(s, i);
    case _ =>
  }

  lemma MainKeepsFlags(s: Proto, m: MainAction)
    requires MainEnabled(s, m)
    ensures MainNext(s, m).regs.flags == s.regs.flags && MainNext(s, m).log.edges == s.log.edges
  {
    match m
    case Read(offset) => ReadFrame(s.regs, offset);
    case Write(offset, val) => WriteFrame(s.regs, offset, val);
    case _ =>
  }

  lemma InputKeepsFlags(s: Proto, i: InputAction)
    requires InputEnabled(s, i)
    ensures InputNext(s, i).regs.flags == s.regs.flags && InputNext(s, i).log.edges == s.log.edges
  {
  }

  lemma OutputKeepsFlags(s: Proto, o: OutputAction)
    requires OutputEnabled(s, o)
    ensures OutputNext(s, o).regs.flags == s.regs.flags && OutputNext(s, o).log.edges == s.log.edges
  {
  }

  // ----- shutdown -----

  predicate Dropping(m: MainPc) {
    m != Running
  }

  predicate OutputLeaving(o: OutputPc) {
    o == Draining || o.DrainTaken? || o == OutputExited
  }

  /** How far the threads can be, given how far the main thread is with dropping the device. */
  ghost predicate ShutdownInv(s: Proto) {
    && (s.main == Running ==> !s.ch.exitInput && s.input != InputExited)
    && (s.main == Running || s.main == ExitOutput ==> !s.ch.exitOutput && !OutputLeaving(s.output))
    && (Dropping(s.main) ==> s.ch.exitInput || s.input == InputExited)
    && (Dropping(s.main) && s.main != ExitOutput ==> s.ch.exitOutput || OutputLeaving(s.output))
    && (s.main in {JoinOutput, JoinWriter, Dropped} ==> s.input == InputExited)
    && (s.main in {JoinWriter, Dropped} ==> s.output == OutputExited)
    && (s.main == Dropped ==> s.writer == WriterDone)
    && (!OutputLeaving(s.output) ==> s.log.drained == 0)
    && (s.output == OutputExited ==> s.ch.deviceTx == [])
    && (s.writer == WriterDone ==> s.output == OutputExited && s.ch.uartTx == [])
  }

  lemma StepKeepsShutdownInv(s: Proto, a: Action)
    requires LockInv(s) && ShutdownInv(s) && Enabled(s, a)
    ensures ShutdownInv(Next(s, a))
  {
    match a
    case Main(m) => MainKeepsShutdownInv(s, m);
    case Output(o) => OutputKeepsShutdownInv(s, o);
    case Input(i) => InputKeepsShutdownInv(s, i);
    case _ =>
  }

  lemma MainKeepsShutdownInv(s: Proto, m: MainAction)
    requires LockInv(s) && ShutdownInv(s) && MainEnabled(s, m)
    ensures ShutdownInv(MainNext(s, m))
  {
  }

  lemma InputKeepsShutdownInv(s: Proto, i: InputAction)
    requires ShutdownInv(s) && InputEnabled(s, i)
    ensures ShutdownInv(InputNext(s, i))
  {
  }

  lemma OutputKeepsShutdownInv(s: Proto, o: OutputAction)
    requires ShutdownInv(s) && OutputEnabled(s, o)
    ensures ShutdownInv(OutputNext(s, o))
  {
  }

  // ----- every run -----

  ghost predicate Inv(s: Proto) {
    && LockInv(s)
    && FreshInv(s)
    && CountInv(s)
    && DeliveryInv(s)
    && ReceiveInv(s)
    && TimeoutInv(s)
    && BoundInv(s)
    && EdgeInv(s)
    && ShutdownInv(s)
  }

  lemma InitSatisfiesInv()
    ensures Inv(Init())
  {
    assert Init().regs.line.fifoSize == 16;
    assert !Bits.Bit(1, 3) && !Bits.Bit(1, 4) && !Bits.Bit(1, 5) && !Bits.Bit(1, 6) by {
      Bits.BitOfZero(2);
      Bits.BitOfZero(3);
      Bits.BitOfZero(4);
      Bits.BitOfZero(5);
    }
  }

  lemma StepKeepsInv(s: Proto, a: Action)
    requires Inv(s) && Enabled(s, a)
    ensures Inv(Next(s, a))
  {
    StepKeepsLockInv(s, a);
    StepKeepsFreshInv(s, a);
    StepKeepsCountInv(s, a);
    StepKeepsDeliveryInv(s, a);
    StepKeepsReceiveInv(s, a);
    StepKeepsTimeoutInv(s, a);
    StepKeepsBoundInv(s, a);
    StepKeepsEdgeInv(s, a);
    StepKeepsShutdownInv(s, a);
  }

  /** Whatever the schedule, the state it leads to satisfies all of it. */
  lemma {:induction false} RunSatisfiesInv(schedule: seq<Action>)
    ensures Run(schedule).Some? ==> Inv(Run(schedule).value)
  {
    if schedule == [] {
      InitSatisfiesInv();
    } else if Run(schedule).Some? {
      var before := schedule[..|schedule| - 1];
      RunSatisfiesInv(before);
      StepKeepsInv(Run(before).value, schedule[|schedule| - 1]);
    }
  }
}
