/** One UART with everything that touches it: the main thread (register accesses and shutdown), the
    two buffer threads and the installed writer task, as a transition system.

    A step holds the lock throughout, or does one operation on a channel. A critical section that
    does more than one thing the other threads can see (handing a byte over and counting it, or
    announcing up to three edges on the interrupt bus) keeps the lock over several steps. */
module UartProtocol {
  import opened Memory
  import opened UartState

  datatype Thread = MainThread | InputThread | OutputThread

  /** What the owner of the lock still has to do before it releases it. */
  datatype Work =
    | CountByte
    | RefreshFrom(line: Line, id: IntId)

  datatype Lock = Free | Held(owner: Thread, work: Work)

  datatype MainPc = Running | ExitOutput | JoinInput | JoinOutput | JoinWriter | Dropped

  datatype InputPc =
    | Deciding
    | Waiting(canTimeout: bool)
    | Received(b: byte)
    | TimedOut
    | InputExited

  datatype OutputPc =
    | Selecting
    | Taken(b: byte)
    | Sending(b: byte)
    | Sent
    | Draining
    | DrainTaken(b: byte)
    | OutputExited

  datatype WriterPc = Receiving | Writing(b: byte) | WriterDone

  datatype Channels = Channels(
    uartRx: seq<byte>,    // reader task to input thread
    deviceTx: seq<byte>,  // main thread to output thread
    uartTx: seq<byte>,    // output thread to writer task
    exitInput: bool,
    exitOutput: bool)

  /** What happened to the receive side, in order. */
  datatype RxEvent = Kept(b: byte) | Lost(b: byte) | StatusCleared

  datatype Log = Log(
    arrived: seq<byte>,     // sent by the reader task
    rxEvents: seq<RxEvent>,
    readBytes: seq<word>,   // returned by reads of the data register
    accepted: seq<byte>,    // taken by writes of the data register
    delivered: seq<byte>,   // written out by the writer task
    drained: nat,           // taken by the output thread after its exit signal
    everInfinite: bool,     // whether the infinite receive FIFO was ever on
    edges: seq<Edge>)       // announced on the interrupt bus

  datatype Proto = Proto(
    regs: Regs,
    lock: Lock,
    main: MainPc,
    input: InputPc,
    output: OutputPc,
    writer: WriterPc,
    ch: Channels,
    log: Log)

  datatype MainAction =
    | Read(offset: nat)
    | Write(offset: nat, val: word)
    | HackInfiniteRx(active: bool)
    | HackNodelayTx(active: bool)
    | Drop
    | DropNext

  datatype InputAction = Decide | ReceiveByte | Expire | LeaveInput | Store | MarkTimeout

  datatype OutputAction = TakeByte | LeaveOutput | Begin | SendByte | End | Drain | DrainSend | Finish

  datatype WriterAction = TakeOutput | WriteOut | Hangup

  datatype Action =
    | Arrive(b: byte)
    | LockStep
    | Main(m: MainAction)
    | Input(i: InputAction)
    | Output(o: OutputAction)
    | Writer(w: WriterAction)

  function Init(): Proto {
    Proto(InitRegs(), Free, Running, Deciding, Selecting, Receiving,
          Channels([], [], [], false, false),
          Log([], [], [], [], [], 0, false, []))
  }

  predicate Holds(s: Proto, t: Thread) {
    s.lock.Held? && s.lock.owner == t
  }

  predicate MainEnabled(s: Proto, m: MainAction) {
    match m
    case Read(_) => s.main == Running && s.lock == Free
    case Write(offset, val) => s.main == Running && s.lock == Free && WriteDefined(s.regs, offset, val)
    case HackInfiniteRx(_) => s.main == Running && s.lock == Free
    case HackNodelayTx(_) => s.main == Running && s.lock == Free
    case Drop => s.main == Running && !Holds(s, MainThread)
    case DropNext =>
      || s.main == ExitOutput
      || (s.main == JoinInput && s.input == InputExited)
      || (s.main == JoinOutput && s.output == OutputExited)
      || (s.main == JoinWriter && s.writer == WriterDone)
  }

  predicate InputEnabled(s: Proto, i: InputAction) {
    match i
    case Decide => s.input == Deciding && s.lock == Free
    case ReceiveByte => s.input.Waiting? && s.ch.uartRx != []
    case Expire => s.input == Waiting(true)
    case LeaveInput => s.input.Waiting? && s.ch.exitInput
    case Store => s.input.Received? && s.lock == Free
    case MarkTimeout => s.input == TimedOut && s.lock == Free
  }

  predicate OutputEnabled(s: Proto, o: OutputAction) {
    match o
    case TakeByte => s.output == Selecting && !Holds(s, OutputThread) && s.ch.deviceTx != []
    case LeaveOutput => s.output == Selecting && !Holds(s, OutputThread) && s.ch.exitOutput
    case Begin => s.output.Taken? && s.lock == Free
    case SendByte => s.output.Sending? && !Holds(s, OutputThread)
    case End => s.output == Sent && s.lock == Free
    case Drain => s.output == Draining && s.ch.deviceTx != []
    case DrainSend => s.output.DrainTaken?
    case Finish => s.output == Draining && s.ch.deviceTx == []
  }

  predicate WriterEnabled(s: Proto, w: WriterAction) {
    match w
    case TakeOutput => s.writer == Receiving && s.ch.uartTx != []
    case WriteOut => s.writer.Writing?
    case Hangup => s.writer == Receiving && s.ch.uartTx == [] && s.output == OutputExited
  }

  predicate Enabled(s: Proto, a: Action) {
    match a
    case Arrive(_) => true
    case LockStep => s.lock.Held?
    case Main(m) => MainEnabled(s, m)
    case Input(i) => InputEnabled(s, i)
    case Output(o) => OutputEnabled(s, o)
    case Writer(w) => WriterEnabled(s, w)
  }

  /** The lock after a critical section with the given outcome: released at once, or kept for a refresh. */
  function LockAfter(owner: Thread, regs: Regs, refresh: bool): Lock {
    if refresh then Held(owner, RefreshFrom(TxLine, GetIntId(regs))) else Free
  }

  function MainNext(s: Proto, m: MainAction): Proto
    requires MainEnabled(s, m)
  {
    match m
    case Read(offset) =>
      var r := ReadSection(s.regs, offset);
      s.(regs := r.regs,
         lock := LockAfter(MainThread, r.regs, r.refresh),
         log := if offset == 0x00 && r.result.Ok?
                then s.log.(readBytes := s.log.readBytes + [r.result.value]) else s.log)
    case Write(offset, val) =>
      var w := WriteSection(s.regs, offset, val);
      if w.send.Some? then
        s.(lock := Held(MainThread, CountByte),
           ch := s.ch.(deviceTx := s.ch.deviceTx + [w.send.value]),
           log := s.log.(accepted := s.log.accepted + [w.send.value]))
      else
        s.(regs := w.regs,
           lock := LockAfter(MainThread, w.regs, w.refresh),
           log := if offset == 0x04 then s.log.(rxEvents := s.log.rxEvents + [StatusCleared]) else s.log)
    case HackInfiniteRx(active) =>
      s.(regs := s.regs.(infiniteRx := active), log := s.log.(everInfinite := s.log.everInfinite || active))
    case HackNodelayTx(active) => s.(regs := s.regs.(nodelayTx := active))
    case Drop => s.(main := ExitOutput, ch := s.ch.(exitInput := true))
    case DropNext =>
      match s.main
      case ExitOutput => s.(main := JoinInput, ch := s.ch.(exitOutput := true))
      case JoinInput => s.(main := JoinOutput)
      case JoinOutput => s.(main := JoinWriter)
      case _ => s.(main := Dropped)
  }

  function InputNext(s: Proto, i: InputAction): Proto
    requires InputEnabled(s, i)
  {
    match i
    case Decide => s.(input := Waiting(s.regs.rxBuf != [] && !s.regs.timeout))
    case ReceiveByte => s.(input := Received(s.ch.uartRx[0]), ch := s.ch.(uartRx := s.ch.uartRx[1..]))
    case Expire => s.(input := TimedOut)
    case LeaveInput => s.(input := InputExited, ch := s.ch.(exitInput := false))
    case Store =>
      var b := s.input.b;
      var regs := StoreSection(s.regs, b);
      s.(regs := regs,
         lock := LockAfter(InputThread, regs, HasRoom(s.regs)),
         input := Deciding,
         log := s.log.(rxEvents := s.log.rxEvents + [if HasRoom(s.regs) then Kept(b) else Lost(b)]))
    case MarkTimeout =>
      var regs := ExpireSection(s.regs);
      s.(regs := regs, lock := LockAfter(InputThread, regs, s.regs.rxBuf != []), input := Deciding)
  }

  function OutputNext(s: Proto, o: OutputAction): Proto
    requires OutputEnabled(s, o)
  {
    match o
    case TakeByte => s.(output := Taken(s.ch.deviceTx[0]), ch := s.ch.(deviceTx := s.ch.deviceTx[1..]))
    case LeaveOutput => s.(output := Draining, ch := s.ch.(exitOutput := false))
    case Begin =>
      var regs := BeginSection(s.regs);
      s.(regs := regs, lock := LockAfter(OutputThread, regs, !s.regs.busy), output := Sending(s.output.b))
    case SendByte => s.(output := Sent, ch := s.ch.(uartTx := s.ch.uartTx + [s.output.b]))
    case End =>
      var regs := EndSection(s.regs);
      s.(regs := regs, lock := LockAfter(OutputThread, regs, true), output := Selecting)
    case Drain =>
      s.(output := DrainTaken(s.ch.deviceTx[0]),
         ch := s.ch.(deviceTx := s.ch.deviceTx[1..]),
         log := s.log.(drained := s.log.drained + 1))
    case DrainSend => s.(output := Draining, ch := s.ch.(uartTx := s.ch.uartTx + [s.output.b]))
    case Finish => s.(output := OutputExited)
  }

  function WriterNext(s: Proto, w: WriterAction): Proto
    requires WriterEnabled(s, w)
  {
    match w
    case TakeOutput => s.(writer := Writing(s.ch.uartTx[0]), ch := s.ch.(uartTx := s.ch.uartTx[1..]))
    case WriteOut => s.(writer := Receiving, log := s.log.(delivered := s.log.delivered + [s.writer.b]))
    case Hangup => s.(writer := WriterDone)
  }

  /** The edges announced by a step. */
  function Emitted(s: Proto, a: Action): seq<Edge> {
    if a == LockStep && s.lock.Held? && s.lock.work.RefreshFrom? then
      LineEdges(s.regs.flags, s.lock.work.line, s.lock.work.id)
    else []
  }

  /** The owner of the lock does the next piece of its work. */
  function LockNext(s: Proto): Proto
    requires s.lock.Held?
  {
    match s.lock.work
    case CountByte =>
      var regs := CountSent(s.regs);
      s.(regs := regs, lock := LockAfter(s.lock.owner, regs, true))
    case RefreshFrom(line, id) =>
      s.(regs := s.regs.(flags := RefreshLine(s.regs.flags, line, id)),
         lock := match line
                 case TxLine => Held(s.lock.owner, RefreshFrom(RxLine, id))
                 case RxLine => Held(s.lock.owner, RefreshFrom(ComboLine, id))
                 case ComboLine => Free,
         log := s.log.(edges := s.log.edges + LineEdges(s.regs.flags, line, id)))
  }

  function Next(s: Proto, a: Action): Proto
    requires Enabled(s, a)
  {
    match a
    case Arrive(b) =>
      s.(ch := s.ch.(uartRx := s.ch.uartRx + [b]), log := s.log.(arrived := s.log.arrived + [b]))
    case LockStep => LockNext(s)
    case Main(m) => MainNext(s, m)
    case Input(i) => InputNext(s, i)
    case Output(o) => OutputNext(s, o)
    case Writer(w) => WriterNext(s, w)
  }

  /** The state after a schedule, if every step of it is enabled in turn. */
  function Run(schedule: seq<Action>): Option<Proto> {
    if schedule == [] then Some(Init())
    else
      match Run(schedule[..|schedule| - 1])
      case None => None
      case Some(s) =>
        var a := schedule[|schedule| - 1];
        if Enabled(s, a) then Some(Next(s, a)) else None
  }
}
