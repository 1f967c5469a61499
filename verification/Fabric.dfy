/** The interrupt fabric: all UARTs with their threads, the timers with theirs, the one interrupt bus
    they share, and the two interrupt controllers the bus is drained into.

    Draining and register accesses are steps of the main thread, which does one at a time; letting
    them interleave freely, as here, only adds schedules. */
module Fabric {
  import opened Bits
  import opened Interrupts
  import opened Memory
  import opened UartInvariants
  import opened UartProtocol
  import opened UartState
  import opened VicManager
  import opened VicUnit
  import opened TimerUnits
  import Timer
  import TimerLaws
  import TimerSchedule

  datatype Fabric = Fabric(uarts: seq<Proto>, timers: seq<TimerUnit>, bus: seq<Message>, vic: VicPair)

  datatype FabricAction =
    | UartStep(k: nat, a: Action)
    | TimerAccess(t: nat, access: TimerLaws.Access)
    | TimerThread(t: nat, e: TimerSchedule.Event)
    | Drain
    | VicWrite(offset: nat, val: word)

  /** The lines of the UARTs; the third one exists only when it was enabled. */
  function LinesOf(k: nat): UartInterrupts
    requires k < 3
  {
    if k == 0 then UART1 else if k == 1 then UART2 else UART3
  }

  function SourceOf(k: nat, line: Line): Interrupt
    requires k < 3
  {
    InterruptOf(LinesOf(k), line)
  }

  function TimerLine(t: nat): Interrupt
    requires t < 3
  {
    if t == 0 then Tc1Ui else if t == 1 then Tc2Ui else Tc3Ui
  }

  /** How the system is set up: with the third UART or not, and when each timer was made. */
  datatype Setup = Setup(third: bool, made: (nat, nat, nat))

  function Reset(setup: Setup): Fabric {
    Fabric(if setup.third then [Init(), Init(), Init()] else [Init(), Init()],
           [NewUnit(16, setup.made.0), NewUnit(16, setup.made.1), NewUnit(32, setup.made.2)],
           [],
           ResetPair())
  }

  // ----- steps -----

  predicate FabricEnabled(f: Fabric, a: FabricAction) {
    match a
    case UartStep(k, step) => k < |f.uarts| && Enabled(f.uarts[k], step)
    case TimerAccess(t, access) => t < |f.timers| && UnitFits(f.timers[t], access)
    case TimerThread(t, e) => t < |f.timers| && UnitCanTurn(f.timers[t], e)
    case Drain => f.bus != []
    case VicWrite(_, _) => true
  }

  /** The messages a step puts on the bus. */
  function Sends(f: Fabric, a: FabricAction): seq<Message>
    requires |f.uarts| <= 3 && |f.timers| <= 3 && FabricEnabled(f, a)
  {
    match a
    case UartStep(k, step) => ToMessages(LinesOf(k), Emitted(f.uarts[k], step))
    case TimerAccess(t, access) => if Clears(f.timers[t].regs, access) then [Message(TimerLine(t), false)] else []
    case TimerThread(t, e) => if e.TimedOut? then [Message(TimerLine(t), true)] else []
    case _ => []
  }

  function FabricNext(f: Fabric, a: FabricAction): Fabric
    requires |f.uarts| <= 3 && |f.timers| <= 3 && ValidPair(f.vic) && FabricEnabled(f, a)
  {
    var bus := f.bus + Sends(f, a);
    match a
    case UartStep(k, step) => f.(uarts := f.uarts[k := Next(f.uarts[k], step)], bus := bus)
    case TimerAccess(t, access) => f.(timers := f.timers[t := UnitAfter(f.timers[t], access)], bus := bus)
    case TimerThread(t, e) => f.(timers := f.timers[t := UnitTurn(f.timers[t], e)], bus := bus)
    case Drain => f.(vic := Deliver(f.vic, f.bus[0]), bus := f.bus[1..])
    case VicWrite(offset, val) => f.(vic := WritePair(f.vic, offset, val).pair)
  }

  ghost predicate Shaped(f: Fabric) {
    |f.uarts| <= 3 && |f.timers| == 3 && ValidPair(f.vic)
  }

  lemma NextKeepsShape(f: Fabric, a: FabricAction)
    requires Shaped(f) && FabricEnabled(f, a)
    ensures Shaped(FabricNext(f, a)) && |FabricNext(f, a).uarts| == |f.uarts|
  {
    if a.VicWrite? {
      WritePairKeepsValid(f.vic, a.offset, a.val);
    }
  }

  /** The state after a schedule, if every step of it is enabled in turn. */
  function RunFabric(setup: Setup, schedule: seq<FabricAction>): (r: Option<Fabric>)
    ensures r.Some? ==> Shaped(r.value)
  {
    if schedule == [] then Some(Reset(setup))
    else
      match RunFabric(setup, schedule[..|schedule| - 1])
      case None => None
      case Some(f) =>
        var a := schedule[|schedule| - 1];
        if FabricEnabled(f, a) then
          NextKeepsShape(f, a);
          Some(FabricNext(f, a))
        else None
  }

  ghost predicate ReachableFabric(f: Fabric) {
    exists setup, schedule :: RunFabric(setup, schedule) == Some(f)
  }

  // ----- coherence -----

  /** The level a line will have once the pending messages are delivered. */
  predicate Pending(f: Fabric, i: Interrupt) {
    Settled(LineUp(f.vic, i), f.bus, i)
  }

  /** The line of a UART, as its controller will see it, is the flag the UART keeps for it. */
  ghost predicate Coherent(f: Fabric, k: nat, line: Line)
    requires k < |f.uarts| <= 3
  {
    Pending(f, SourceOf(k, line)) == Asserted(f.uarts[k].regs.flags, line)
  }

  /** A timeout was announced after the interrupt was last cleared. */
  predicate AnnouncedSinceClear(log: seq<TimerEvent>) {
    log != [] && log[|log| - 1] == Announced
  }

  /** The line of a timer, as its controller will see it, is up when a timeout was not cleared yet. */
  ghost predicate TimerCoherent(f: Fabric, t: nat)
    requires t < |f.timers| <= 3
  {
    Pending(f, TimerLine(t)) == AnnouncedSinceClear(f.timers[t].log)
  }

  ghost predicate FabricInv(f: Fabric) {
    && Shaped(f)
    && (forall k: nat :: k < |f.uarts| ==> Inv(f.uarts[k]))
    && (forall k: nat, line :: k < |f.uarts| ==> Coherent(f, k, line))
    && (forall t: nat :: t < 3 ==> UnitInv(f.timers[t]))
    && (forall t: nat :: t < 3 ==> TimerCoherent(f, t))
  }

  /** No two lines share a source. */
  lemma SourcesAreDistinct(k: nat, line: Line, j: nat, other: Line, t: nat, u: nat)
    requires k < 3 && j < 3 && t < 3 && u < 3
    ensures SourceOf(k, line) == SourceOf(j, other) <==> k == j && line == other
    ensures TimerLine(t) == TimerLine(u) <==> t == u
    ensures SourceOf(k, line) != TimerLine(t)
  {
  }

  /** Nothing is pending and no line is up. */
  lemma NoLineIsUp(f: Fabric, i: Interrupt)
    requires f.bus == [] && f.vic == ResetPair()
    ensures !Pending(f, i)
  {
    BitOfZero(Index(i));
  }

  lemma ResetIsCoherent(setup: Setup)
    ensures FabricInv(Reset(setup))
  {
    var f := Reset(setup);
    InitSatisfiesInv();
    forall k: nat, line | k < |f.uarts|
      ensures Coherent(f, k, line)
    {
      NoLineIsUp(f, SourceOf(k, line));
    }
    forall t: nat | t < 3
      ensures TimerCoherent(f, t) && UnitInv(f.timers[t])
    {
      NoLineIsUp(f, TimerLine(t));
    }
  }

  /** A step that sends nothing and does not drain leaves every pending level alone; one that sends one
      message sets the level of the line it names. */
  lemma SendingSetsOneLine(f: Fabric, a: FabricAction, i: Interrupt)
    requires Shaped(f) && FabricEnabled(f, a) && !a.Drain? && |Sends(f, a)| <= 1
    ensures var sends := Sends(f, a);
            Pending(FabricNext(f, a), i) == if sends != [] && sends[0].line == i then sends[0].level else Pending(f, i)
  {
    var sends := Sends(f, a);
    if a.VicWrite? {
      WritePairKeepsValid(f.vic, a.offset, a.val);
    } else if sends == [] {
      assert f.bus + [] == f.bus;
    } else {
      assert sends == [sends[0]];
      SettledAppend(LineUp(f.vic, i), f.bus, sends[0], i);
    }
  }

  /** A step of a UART sends at most one message, and exactly when one of its flags changes. */
  lemma UartStepSends(f: Fabric, k: nat, a: Action, line: Line)
    requires Shaped(f) && FabricEnabled(f, UartStep(k, a))
    ensures var sends := Sends(f, UartStep(k, a));
            var before, after := f.uarts[k].regs.flags, Next(f.uarts[k], a).regs.flags;
            && |sends| <= 1
            && (sends != [] && sends[0].line == SourceOf(k, line) ==> sends[0].level == Asserted(after, line))
            && (!(sends != [] && sends[0].line == SourceOf(k, line)) ==>
                  Asserted(before, line) == Asserted(after, line))
            && (sends != [] ==> exists other :: sends[0].line == SourceOf(k, other))
  {
    var s := f.uarts[k];
    if a == LockStep && s.lock.work.RefreshFrom? {
      var visited := s.lock.work.line;
      SourcesAreDistinct(k, visited, k, line, 0, 0);
      if LineEdges(s.regs.flags, visited, s.lock.work.id) != [] {
        var level := LevelOf(s.lock.work.id, visited);
        assert ToMessages(LinesOf(k), [Edge(visited, level)]) == [Message(SourceOf(k, visited), level)];
      }
    } else {
      OtherStepsKeepFlags(s, a);
    }
  }

  lemma UartStepOnUartLine(f: Fabric, k: nat, a: Action, j: nat, line: Line)
    requires Shaped(f) && FabricEnabled(f, UartStep(k, a)) && j < |f.uarts| && Coherent(f, j, line)
    ensures Coherent(FabricNext(f, UartStep(k, a)), j, line)
  {
    UartStepSends(f, k, a, line);
    SendingSetsOneLine(f, UartStep(k, a), SourceOf(j, line));
    OthersAreUntouched(f, k, a, j, line);
  }

  lemma UartStepOnTimerLine(f: Fabric, k: nat, a: Action, t: nat)
    requires Shaped(f) && FabricEnabled(f, UartStep(k, a)) && t < 3 && TimerCoherent(f, t)
    ensures TimerCoherent(FabricNext(f, UartStep(k, a)), t)
  {
    UartStepSends(f, k, a, TxLine);
    SendingSetsOneLine(f, UartStep(k, a), TimerLine(t));
    OthersAreUntouched(f, k, a, k, TxLine);
  }

  lemma UartStepIsCoherent(f: Fabric, k: nat, a: Action)
    requires FabricInv(f) && FabricEnabled(f, UartStep(k, a))
    ensures FabricInv(FabricNext(f, UartStep(k, a)))
  {
    var g := FabricNext(f, UartStep(k, a));
    StepKeepsInv(f.uarts[k], a);
    forall j: nat, line | j < |g.uarts|
      ensures Coherent(g, j, line)
    {
      UartStepOnUartLine(f, k, a, j, line);
    }
    forall t: nat | t < 3
      ensures TimerCoherent(g, t)
    {
      UartStepOnTimerLine(f, k, a, t);
    }
  }

  /** What a UART sends is about none of the lines of another UART or of a timer. */
  lemma OthersAreUntouched(f: Fabric, k: nat, a: Action, j: nat, line: Line)
    requires Shaped(f) && FabricEnabled(f, UartStep(k, a)) && j < |f.uarts|
    ensures var sends := Sends(f, UartStep(k, a));
            sends != [] ==>
              && (j != k ==> sends[0].line != SourceOf(j, line))
              && forall t: nat :: t < 3 ==> sends[0].line != TimerLine(t)
  {
    UartStepSends(f, k, a, line);
    var sends := Sends(f, UartStep(k, a));
    if sends != [] {
      var other :| sends[0].line == SourceOf(k, other);
      SourcesAreDistinct(k, other, j, line, 0, 0);
    }
  }

  lemma TimerStepKeepsUnits(f: Fabric, a: FabricAction, t: nat)
    requires FabricInv(f) && FabricEnabled(f, a) && (a.TimerAccess? || a.TimerThread?) && t < 3
    ensures UnitInv(FabricNext(f, a).timers[t])
  {
    match a
    case TimerAccess(u, access) => AccessKeepsUnitInv(f.timers[u], access);
    case TimerThread(u, e) => TurnKeepsUnitInv(f.timers[u], e);
  }

  predicate IsTimerStep(a: FabricAction) {
    a.TimerAccess? || a.TimerThread?
  }

  lemma TimerStepOnUartLine(f: Fabric, a: FabricAction, j: nat, line: Line)
    requires Shaped(f) && FabricEnabled(f, a) && IsTimerStep(a) && j < |f.uarts| && Coherent(f, j, line)
    ensures Coherent(FabricNext(f, a), j, line)
  {
    SourcesAreDistinct(j, line, j, line, a.t, a.t);
    SendingSetsOneLine(f, a, SourceOf(j, line));
  }

  /** A step of a timer or its interrupter sends a message exactly when it logs an event. */
  lemma TimerStepOnTimerLine(f: Fabric, a: FabricAction, t: nat)
    requires Shaped(f) && FabricEnabled(f, a) && IsTimerStep(a) && t < 3 && TimerCoherent(f, t)
    ensures TimerCoherent(FabricNext(f, a), t)
  {
    SourcesAreDistinct(0, TxLine, 0, TxLine, t, a.t);
    SendingSetsOneLine(f, a, TimerLine(t));
    if t == a.t && Sends(f, a) == [] {
      assert FabricNext(f, a).timers[t].log == f.timers[t].log;
    }
  }

  lemma TimerStepIsCoherent(f: Fabric, a: FabricAction)
    requires FabricInv(f) && FabricEnabled(f, a) && IsTimerStep(a)
    ensures FabricInv(FabricNext(f, a))
  {
    var g := FabricNext(f, a);
    forall j: nat, line | j < |g.uarts|
      ensures Coherent(g, j, line)
    {
      TimerStepOnUartLine(f, a, j, line);
    }
    forall t: nat | t < 3
      ensures UnitInv(g.timers[t]) && TimerCoherent(g, t)
    {
      TimerStepKeepsUnits(f, a, t);
      TimerStepOnTimerLine(f, a, t);
    }
  }

  lemma DrainIsCoherent(f: Fabric)
    requires FabricInv(f) && f.bus != []
    ensures FabricInv(FabricNext(f, FabricAction.Drain))
  {
    var g := FabricNext(f, FabricAction.Drain);
    forall j: nat, line | j < |g.uarts|
      ensures Coherent(g, j, line)
    {
      assert Coherent(f, j, line);
      DeliverSetsOneLine(f.vic, f.bus[0], SourceOf(j, line));
    }
    forall t: nat | t < 3
      ensures TimerCoherent(g, t)
    {
      assert TimerCoherent(f, t);
      DeliverSetsOneLine(f.vic, f.bus[0], TimerLine(t));
    }
  }

  lemma VicWriteIsCoherent(f: Fabric, offset: nat, val: word)
    requires FabricInv(f)
    ensures FabricInv(FabricNext(f, VicWrite(offset, val)))
  {
    var g := FabricNext(f, VicWrite(offset, val));
    WritePairKeepsValid(f.vic, offset, val);
    forall j: nat, line | j < |g.uarts|
      ensures Coherent(g, j, line)
    {
      assert Coherent(f, j, line);
      SendingSetsOneLine(f, VicWrite(offset, val), SourceOf(j, line));
    }
    forall t: nat | t < 3
      ensures TimerCoherent(g, t)
    {
      assert TimerCoherent(f, t);
      SendingSetsOneLine(f, VicWrite(offset, val), TimerLine(t));
    }
  }

  lemma StepKeepsFabricInv(f: Fabric, a: FabricAction)
    requires FabricInv(f) && FabricEnabled(f, a)
    ensures FabricInv(FabricNext(f, a))
  {
    match a
    case UartStep(k, step) => UartStepIsCoherent(f, k, step);
    case TimerAccess(_, _) => TimerStepIsCoherent(f, a);
    case TimerThread(_, _) => TimerStepIsCoherent(f, a);
    case Drain => DrainIsCoherent(f);
    case VicWrite(offset, val) => VicWriteIsCoherent(f, offset, val);
  }

  lemma {:induction false} RunIsCoherent(setup: Setup, schedule: seq<FabricAction>)
    ensures RunFabric(setup, schedule).Some? ==> FabricInv(RunFabric(setup, schedule).value)
  {
    if schedule == [] {
      ResetIsCoherent(setup);
    } else if RunFabric(setup, schedule).Some? {
      var before := schedule[..|schedule| - 1];
      RunIsCoherent(setup, before);
      StepKeepsFabricInv(RunFabric(setup, before).value, schedule[|schedule| - 1]);
    }
  }

  lemma ReachableIsCoherent(f: Fabric)
    requires ReachableFabric(f)
    ensures FabricInv(f)
  {
    var setup, schedule :| RunFabric(setup, schedule) == Some(f);
    RunIsCoherent(setup, schedule);
  }

  /** In every reachable state, delivering the pending messages would give each line of each UART the
      level its flag says; and when the UART's lock is free, that is the level its registers give. */
  lemma PendingMessagesGiveTheLevel(f: Fabric, k: nat, line: Line)
    requires ReachableFabric(f) && k < |f.uarts| <= 3
    ensures LineUp(DeliverAll(f.vic, f.bus), SourceOf(k, line)) <==> Asserted(f.uarts[k].regs.flags, line)
    ensures f.uarts[k].lock == Free ==>
              (LineUp(DeliverAll(f.vic, f.bus), SourceOf(k, line)) <==> Level(f.uarts[k].regs, line))
  {
    ReachableIsCoherent(f);
    DeliverAllSettles(f.vic, f.bus, SourceOf(k, line));
    assert Coherent(f, k, line);
    if f.uarts[k].lock == Free {
      assert Fresh(f.uarts[k].regs, line);
    }
  }

  /** And the line of each timer would be up exactly when its interrupter announced a timeout after the
      last write of the clear register. */
  lemma PendingMessagesGiveTheTimeout(f: Fabric, t: nat)
    requires ReachableFabric(f) && t < 3
    ensures |f.timers| == 3
    ensures LineUp(DeliverAll(f.vic, f.bus), TimerLine(t)) <==> AnnouncedSinceClear(f.timers[t].log)
  {
    ReachableIsCoherent(f);
    DeliverAllSettles(f.vic, f.bus, TimerLine(t));
    assert TimerCoherent(f, t);
  }

  /** Every timer of every reachable fabric keeps its schedule: its counter and the timeouts its interrupter
      has announced since the enabling write agree at every moment. */
  lemma {:induction false} TimersKeepTheirSchedule(
      f: Fabric, t: nat, before: seq<TimerLaws.Access>, val: word, at: nat, sendTime: nat,
      run: seq<TimerLaws.Access>, now: nat)
    requires ReachableFabric(f) && t < |f.timers| == 3
    requires StartedBy(f.timers[t], before, val, at, sendTime, run)
    requires f.timers[t].inbox == [] && at <= sendTime <= now
    requires TimerSchedule.TimeoutsUntil(SinceMessage(f.timers[t].events), now)
    requires Timer.Fits(f.timers[t].regs, now)
    requires Timer.Elapsed(f.timers[t].regs, now) / Timer.MEGA < Timer.TWO_TO_THE_32
    ensures var u := f.timers[t];
            var edge := EdgeOf(u, before, val, at, sendTime);
            var shown := Timer.ReadTimer(u.regs, 0x04, now).result;
            && TimerSchedule.IsEdge(edge) && edge.lastTime == at
            && TimerSchedule.CounterAgrees(edge, now, shown)
            && TimerSchedule.InterruptsAgree(
                 edge, sendTime, now, |SinceMessage(u.events)|, TimerSchedule.CaughtUp(u.thread, now))
  {
    ReachableIsCoherent(f);
    UnitSchedule(f.timers[t], before, val, at, sendTime, run, now);
  }

  /** And its interrupter has a deadline, or a message on the way that gives it one, exactly when the timer is
      enabled and was enabled periodic with a load value. */
  lemma TimersAreScheduledExactly(f: Fabric, t: nat)
    requires ReachableFabric(f) && t < |f.timers| == 3
    ensures UnitInv(f.timers[t])
    ensures Scheduled(f.timers[t]) <==> OriginNow(f.timers[t]) == On(Timer.Periodic, true)
  {
    ReachableIsCoherent(f);
    ScheduledExactly(f.timers[t]);
  }

  /** The status registers the processor reads show the line `i` as up, or raised by software, masked by
      enable and routed by select. */
  ghost predicate StatusShows(p: VicPair, i: Interrupt, up: bool)
    requires ValidPair(p)
  {
    var v := BankRegs(p, i);
    var bit := Index(i);
    var base := if Bank(i) == 1 then 0 else 0x10000;
    var raised := up || Bit(v.software, bit);
    && ReadPair(p, base).Ok?
    && ReadPair(p, base + 4).Ok?
    && (Bit(ReadPair(p, base).value, bit) <==> raised && Bit(v.enabled, bit) && !Bit(v.select, bit))
    && (Bit(ReadPair(p, base + 4).value, bit) <==> raised && Bit(v.enabled, bit) && Bit(v.select, bit))
  }

  lemma {:induction false} StatusShowsTheLine(p: VicPair, i: Interrupt)
    requires ValidPair(p)
    ensures StatusShows(p, i, LineUp(p, i))
  {
    StatusBits(BankRegs(p, i), Index(i));
  }

  /** With the bus drained and the UART's lock free, the status registers show the level computed in the
      UART; and with the bus drained they show each timeout that was not cleared yet. */
  lemma StatusRegistersShowTheLevels(f: Fabric)
    requires ReachableFabric(f) && f.bus == []
    ensures Shaped(f)
    ensures forall k: nat, line :: k < |f.uarts| && f.uarts[k].lock == Free ==>
              StatusShows(f.vic, SourceOf(k, line), Level(f.uarts[k].regs, line))
    ensures forall t: nat :: t < 3 ==> StatusShows(f.vic, TimerLine(t), AnnouncedSinceClear(f.timers[t].log))
  {
    ReachableIsCoherent(f);
    forall k: nat, line | k < |f.uarts| && f.uarts[k].lock == Free
      ensures StatusShows(f.vic, SourceOf(k, line), Level(f.uarts[k].regs, line))
    {
      PendingMessagesGiveTheLevel(f, k, line);
      StatusShowsTheLine(f.vic, SourceOf(k, line));
    }
    forall t: nat | t < 3
      ensures StatusShows(f.vic, TimerLine(t), AnnouncedSinceClear(f.timers[t].log))
    {
      PendingMessagesGiveTheTimeout(f, t);
      StatusShowsTheLine(f.vic, TimerLine(t));
    }
  }
}
