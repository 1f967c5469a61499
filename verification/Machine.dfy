/** The whole machine as one transition system: the main loop, in steps as fine as its accesses and the
    single receives of a drain, between the steps of all other threads.

    The processor is not modelled: an instruction makes any sequence of accesses. An access to a UART
    takes the UART's lock, and the main loop goes on only when it has released it. */
module Machine {
  import opened Bits
  import opened Fabric
  import opened Interrupts
  import opened Memory
  import opened UartProtocol
  import opened UartState
  import opened VicManager
  import opened VicUnit
  import Syscon
  import Timer
  import TimerLaws
  import TimerValues
  import Ts7200

  /** Where the main loop is. */
  datatype LoopPc =
    | Between
    | Executing(aside: Option<MemException>) // in an instruction, with the exception set aside so far
    | Checking(halted: bool)                 // draining the bus, in a step that began halted or running
    | Stopped(outcome: Ts7200.StepOutcome)

  datatype Machine = Machine(
    fabric: Fabric,
    syscon: Syscon.SysconRegs,
    frozen: bool,
    pc: LoopPc,
    raised: seq<Ts7200.CpuException>)

  datatype CpuAccess =
    | SysconRead(offset: nat)
    | SysconWrite(offset: nat, val: word)
    | VicRead(offset: nat)
    | OfFabric(a: FabricAction)        // a controller write, or an access to a UART or a timer
    | Plain(error: Option<MemException>) // an access to RAM or to an unmapped address

  datatype MachineAction =
    | OtherThread(a: FabricAction)
    | Begin(mode: Ts7200.BlockMode)
    | Perform(access: CpuAccess)
    | EndInstruction
    | ReceiveOne
    | EndCheck
    | FreezeMachine

  /** Accesses of the processor that change the fabric. */
  predicate IsAccess(a: FabricAction) {
    match a
    case UartStep(_, step) => step.Main? && (step.m.Read? || step.m.Write?)
    case TimerAccess(_, _) => true
    case VicWrite(_, _) => true
    case _ => false
  }

  predicate IsOtherThread(a: FabricAction) {
    match a
    case UartStep(_, step) => !step.Main?
    case TimerThread(_, _) => true
    case _ => false
  }

  /** The exception an access of the fabric raises. */
  function FabricError(f: Fabric, a: FabricAction): Option<MemException>
    requires Shaped(f) && FabricEnabled(f, a) && IsAccess(a)
  {
    match a
    case UartStep(k, Main(Read(offset))) => Ts7200.ErrorOf(ReadSection(f.uarts[k].regs, offset).result)
    case UartStep(k, Main(Write(offset, val))) => Ts7200.ErrorOf(WriteSection(f.uarts[k].regs, offset, val).result)
    case TimerAccess(t, ReadAt(offset, now)) => Ts7200.ErrorOf(Timer.ReadTimer(f.timers[t].regs, offset, now).result)
    case TimerAccess(t, WriteAt(offset, val, now, sendTime)) =>
      Ts7200.ErrorOf(Timer.WriteTimer(f.timers[t].regs, offset, val, now, sendTime).result)
    case VicWrite(offset, val) => Ts7200.ErrorOf(WritePair(f.vic, offset, val).result)
  }

  /** The main thread is in no critical section. */
  predicate MainIsFree(f: Fabric) {
    forall k :: 0 <= k < |f.uarts| ==> !Holds(f.uarts[k], MainThread)
  }

  ghost predicate CanAct(m: Machine, a: MachineAction)
    requires Shaped(m.fabric)
  {
    match a
    case OtherThread(x) => IsOtherThread(x) && FabricEnabled(m.fabric, x)
    case FreezeMachine => m.pc == Between
    case _ =>
      && MainIsFree(m.fabric)
      && match a
         case Begin(mode) =>
           && m.pc == Between && !m.frozen
           && (m.syscon.power == Syscon.Halt && mode == Ts7200.Blocking ==> m.fabric.bus != [])
         case Perform(access) =>
           m.pc.Executing? && (access.OfFabric? ==> IsAccess(access.a) && FabricEnabled(m.fabric, access.a))
         case EndInstruction => m.pc.Executing?
         case ReceiveOne => m.pc.Checking? && m.fabric.bus != []
         case EndCheck => m.pc.Checking? && m.fabric.bus == []
  }

  /** What an access does to the machine, the exception apart. */
  ghost function Accessed(m: Machine, access: CpuAccess): Machine
    requires Shaped(m.fabric) && (access.OfFabric? ==> FabricEnabled(m.fabric, access.a))
  {
    match access
    case SysconRead(offset) => m.(syscon := Syscon.ReadReg(m.syscon, offset).regs)
    case SysconWrite(offset, val) => m.(syscon := Syscon.WriteReg(m.syscon, offset, val).regs)
    case OfFabric(a) => m.(fabric := FabricNext(m.fabric, a))
    case _ => m
  }

  ghost function AccessError(m: Machine, access: CpuAccess): Option<MemException>
    requires Shaped(m.fabric) && (access.OfFabric? ==> IsAccess(access.a) && FabricEnabled(m.fabric, access.a))
  {
    match access
    case SysconRead(offset) => Ts7200.ErrorOf(Syscon.ReadReg(m.syscon, offset).result)
    case SysconWrite(offset, val) => Ts7200.ErrorOf(Syscon.WriteReg(m.syscon, offset, val).result)
    case VicRead(offset) => Ts7200.ErrorOf(ReadPair(m.fabric.vic, offset))
    case OfFabric(a) => FabricError(m.fabric, a)
    case Plain(error) => error
  }

  ghost function Received(m: Machine): Machine
    requires Shaped(m.fabric) && m.fabric.bus != []
  {
    m.(fabric := FabricNext(m.fabric, FabricAction.Drain))
  }

  ghost function Act(m: Machine, a: MachineAction): Machine
    requires Shaped(m.fabric) && CanAct(m, a)
  {
    match a
    case OtherThread(x) => m.(fabric := FabricNext(m.fabric, x))
    case FreezeMachine => m.(frozen := true)
    case Begin(mode) => (
      match m.syscon.power
      case Run => m.(pc := Executing(None))
      case Halt => (if mode == Ts7200.Blocking then Received(m) else m).(pc := Checking(true))
      case Standby => m.(pc := Stopped(Ts7200.NoStandby)))
    case Perform(access) =>
      var error := AccessError(m, access);
      Accessed(m, access).(pc := if error.Some? then Executing(error) else m.pc)
    case EndInstruction =>
      m.(pc := if m.pc.aside.Some? && Fatal(m.pc.aside.value)
               then Stopped(Ts7200.MemoryFailure(m.pc.aside.value)) else Checking(false))
    case ReceiveOne => Received(m)
    case EndCheck =>
      var exceptions := Ts7200.Raised(m.fabric.vic);
      m.(pc := Between,
         raised := m.raised + exceptions,
         syscon := if m.pc.halted && exceptions != [] then Syscon.SetRunMode(m.syscon) else m.syscon)
  }

  function NewMachine(setup: Setup): Machine {
    Machine(Reset(setup), Syscon.NewHle(), false, Between, [])
  }

  /** The step of the fabric that an action of the machine is, if it is one. */
  ghost function FabricStepOf(m: Machine, a: MachineAction): seq<FabricAction> {
    match a
    case OtherThread(x) => [x]
    case Begin(mode) =>
      if m.syscon.power == Syscon.Halt && mode == Ts7200.Blocking then [FabricAction.Drain] else []
    case Perform(OfFabric(x)) => [x]
    case ReceiveOne => [FabricAction.Drain]
    case _ => []
  }

  lemma ActOnFabric(m: Machine, a: MachineAction)
    requires Shaped(m.fabric) && CanAct(m, a)
    ensures var steps := FabricStepOf(m, a);
            && |steps| <= 1
            && (steps == [] ==> Act(m, a).fabric == m.fabric)
            && (steps != [] ==> FabricEnabled(m.fabric, steps[0])
                                && Act(m, a).fabric == FabricNext(m.fabric, steps[0]))
    ensures Shaped(Act(m, a).fabric)
  {
    var steps := FabricStepOf(m, a);
    if steps != [] {
      NextKeepsShape(m.fabric, steps[0]);
    }
  }

  /** The machine after a run from power-on, if each of its actions was possible in turn. */
  ghost function RunMachine(setup: Setup, actions: seq<MachineAction>): (r: Option<Machine>)
    ensures r.Some? ==> Shaped(r.value.fabric)
  {
    if actions == [] then Some(NewMachine(setup))
    else
      match RunMachine(setup, actions[..|actions| - 1])
      case None => None
      case Some(m) =>
        var a := actions[|actions| - 1];
        if CanAct(m, a) then
          ActOnFabric(m, a);
          Some(Act(m, a))
        else None
  }

  ghost predicate IsRun(setup: Setup, actions: seq<MachineAction>) {
    RunMachine(setup, actions).Some?
  }

  // ----- the fabric inside the machine -----

  /** The fabric of a machine is where a schedule of the fabric alone leads, so all that holds of every
      reachable fabric holds in every run of the machine. */
  lemma {:induction false} FabricIsReachable(setup: Setup, actions: seq<MachineAction>)
    returns (schedule: seq<FabricAction>)
    requires IsRun(setup, actions)
    ensures RunFabric(setup, schedule) == Some(RunMachine(setup, actions).value.fabric)
  {
    schedule := [];
    if actions != [] {
      var before := actions[..|actions| - 1];
      schedule := FabricIsReachable(setup, before);
      var m, a := RunMachine(setup, before).value, actions[|actions| - 1];
      ActOnFabric(m, a);
      var steps := FabricStepOf(m, a);
      if steps != [] {
        assert (schedule + [steps[0]])[..|schedule|] == schedule;
        schedule := schedule + [steps[0]];
      }
    }
  }

  /** When the main loop has drained the bus, in a step of any kind, what the processor could read from the
      status registers is the level of every line of every UART whose lock is free, and every timeout
      not cleared yet. */
  lemma {:induction false} CheckedStatusIsCurrent(setup: Setup, actions: seq<MachineAction>)
    requires IsRun(setup, actions) && CanAct(RunMachine(setup, actions).value, EndCheck)
    ensures var f := RunMachine(setup, actions).value.fabric;
            && (forall k: nat, line :: k < |f.uarts| && f.uarts[k].lock == Free ==>
                  StatusShows(f.vic, SourceOf(k, line), Level(f.uarts[k].regs, line)))
            && (forall t: nat :: t < 3 ==>
                  StatusShows(f.vic, TimerLine(t), AnnouncedSinceClear(f.timers[t].log)))
  {
    var schedule := FabricIsReachable(setup, actions);
    StatusRegistersShowTheLevels(RunMachine(setup, actions).value.fabric);
  }

  // ----- stopping -----

  /** An instruction ends the run exactly when the last exception its accesses raised is not one of those that
      are only logged, and the bus is checked otherwise. */
  lemma EndsExactly(m: Machine)
    requires Shaped(m.fabric) && CanAct(m, EndInstruction)
    ensures Act(m, EndInstruction).pc
         == if m.pc.aside == None || Ts7200.OnlyLogged(m.pc.aside.value) then Checking(false)
            else Stopped(Ts7200.MemoryFailure(m.pc.aside.value))
  {
  }

  predicate VicMapped(offset: nat) {
    VicUnit.Mapped(if offset < 0x10000 then offset else offset - 0x10000)
  }

  predicate UartMapped(offset: nat) {
    offset in {0x00, 0x04, 0x08, 0x0c, 0x10, 0x14, 0x18, 0x1c, 0x28}
  }

  predicate TimerMapped(offset: nat) {
    offset in {0x00, 0x04, 0x08, 0x0c}
  }

  /** The access is at an offset without a register, and nothing else about it fails first. */
  predicate IsUnmapped(m: Machine, access: CpuAccess)
    requires Shaped(m.fabric) && (access.OfFabric? ==> IsAccess(access.a) && FabricEnabled(m.fabric, access.a))
  {
    match access
    case SysconRead(offset) => !Syscon.Mapped(offset)
    case SysconWrite(offset, _) => !Syscon.Mapped(offset) && !(0x80 <= offset <= 0x9c && m.syscon.locked)
    case VicRead(offset) => !VicMapped(offset)
    case OfFabric(VicWrite(offset, _)) => !VicMapped(offset)
    case OfFabric(UartStep(_, Main(Read(offset)))) => !UartMapped(offset)
    case OfFabric(UartStep(_, Main(Write(offset, _)))) => !UartMapped(offset)
    case OfFabric(TimerAccess(t, a)) => !TimerMapped(a.offset) && !TimerLaws.Stuck(m.fabric.timers[t].regs)
    case Plain(error) => error == Some(Unexpected)
  }

  lemma FabricErrorIsUnmapped(m: Machine, a: FabricAction)
    requires Shaped(m.fabric) && IsAccess(a) && FabricEnabled(m.fabric, a)
    ensures FabricError(m.fabric, a) == Some(Unexpected) <==> IsUnmapped(m, OfFabric(a))
  {
    match a
    case UartStep(k, Main(Read(offset))) => UartState.ReadFailsExactly(m.fabric.uarts[k].regs, offset);
    case UartStep(k, Main(Write(offset, val))) => UartState.WriteFailsExactly(m.fabric.uarts[k].regs, offset, val);
    case TimerAccess(t, ReadAt(offset, now)) => TimerValues.ReadFailsExactly(m.fabric.timers[t].regs, offset, now);
    case TimerAccess(t, WriteAt(offset, val, now, sendTime)) =>
      TimerValues.WriteFailsExactly(m.fabric.timers[t].regs, offset, val, now, sendTime);
    case VicWrite(offset, val) =>
      if offset < 0x10000 {
        VicUnit.WriteFailsExactly(m.fabric.vic.vic1, offset, val);
      } else {
        VicUnit.WriteFailsExactly(m.fabric.vic.vic2, offset - 0x10000, val);
      }
  }

  lemma VicReadIsUnmapped(p: VicPair, offset: nat)
    requires ValidPair(p)
    ensures ReadPair(p, offset) == Err(Unexpected) <==> !VicMapped(offset)
  {
    VicUnit.ReadFailsExactly(p.vic1, offset);
    if offset >= 0x10000 {
      VicUnit.ReadFailsExactly(p.vic2, offset - 0x10000);
    }
  }

  /** Whatever the device, an access is unexpected exactly when it is at an offset without a register; if no
      later access of the instruction fails, the machine stops there. */
  lemma {:induction false} UnmappedAccessStops(m: Machine, access: CpuAccess)
    requires Shaped(m.fabric) && CanAct(m, Perform(access))
    ensures AccessError(m, access) == Some(Unexpected) <==> IsUnmapped(m, access)
    ensures var after := Act(m, Perform(access));
            IsUnmapped(m, access) && Shaped(after.fabric) && CanAct(after, EndInstruction) ==>
              Act(after, EndInstruction).pc == Stopped(Ts7200.MemoryFailure(Unexpected))
  {
    match access
    case SysconRead(offset) => Syscon.ReadFailsExactly(m.syscon, offset);
    case SysconWrite(offset, val) => Syscon.WriteFailsExactly(m.syscon, offset, val);
    case VicRead(offset) => VicReadIsUnmapped(m.fabric.vic, offset);
    case OfFabric(a) => FabricErrorIsUnmapped(m, a);
    case Plain(error) =>
  }

  // ----- halting and waking -----

  /** A line is enabled in its controller. */
  predicate LineEnabled(p: VicPair, i: Interrupt) {
    Bit(BankRegs(p, i).enabled, Index(i))
  }

  predicate LineToFiq(p: VicPair, i: Interrupt) {
    Bit(BankRegs(p, i).select, Index(i))
  }

  lemma {:induction false} ShownLineRaises(p: VicPair, i: Interrupt)
    requires ValidPair(p) && LineEnabled(p, i) && LineUp(p, i)
    ensures if LineToFiq(p, i) then FiqPair(p) else IrqPair(p)
  {
    var v := BankRegs(p, i);
    assert RequestsFiq(v, Index(i)) || RequestsIrq(v, Index(i));
    OutputsMeanRequests(v);
  }

  /** The end of a check raises the exceptions of the line. */
  ghost predicate Raises(before: Machine, after: Machine, i: Interrupt) {
    && before.raised <= after.raised
    && (if LineToFiq(before.fabric.vic, i) then Ts7200.FastInterrupt else Ts7200.CpuException.Interrupt)
       in after.raised[|before.raised|..]
  }

  /** A check never misses a line: if a UART with its lock free holds up an enabled line as the check ends,
      or an enabled timer line has an uncleared timeout, the processor is told, and a halted machine runs
      again. */
  lemma {:induction false} CheckMissesNoLine(setup: Setup, actions: seq<MachineAction>, i: Interrupt)
    requires IsRun(setup, actions) && CanAct(RunMachine(setup, actions).value, EndCheck)
    requires LineEnabled(RunMachine(setup, actions).value.fabric.vic, i)
    requires LineHeldUp(RunMachine(setup, actions).value.fabric, i)
    ensures var m := RunMachine(setup, actions).value;
            && Raises(m, Act(m, EndCheck), i)
            && (m.pc.halted ==> Act(m, EndCheck).syscon.power == Syscon.Run)
  {
    var m := RunMachine(setup, actions).value;
    var schedule := FabricIsReachable(setup, actions);
    HeldUpLineIsUp(m.fabric, i);
    ShownLineRaises(m.fabric.vic, i);
    assert (m.raised + Ts7200.Raised(m.fabric.vic))[|m.raised|..] == Ts7200.Raised(m.fabric.vic);
  }

  /** A device holds the line up. */
  ghost predicate LineHeldUp(f: Fabric, i: Interrupt)
    requires Shaped(f)
  {
    || (exists k: nat, line :: HeldByUart(f, i, k, line))
    || (exists t: nat :: HeldByTimer(f, i, t))
  }

  ghost predicate HeldByUart(f: Fabric, i: Interrupt, k: nat, line: Line)
    requires Shaped(f)
  {
    k < |f.uarts| && i == SourceOf(k, line) && f.uarts[k].lock == Free && Level(f.uarts[k].regs, line)
  }

  ghost predicate HeldByTimer(f: Fabric, i: Interrupt, t: nat)
    requires Shaped(f)
  {
    t < 3 && i == TimerLine(t) && AnnouncedSinceClear(f.timers[t].log)
  }

  lemma {:induction false} HeldUpLineIsUp(f: Fabric, i: Interrupt)
    requires ReachableFabric(f) && Shaped(f) && f.bus == [] && LineHeldUp(f, i)
    ensures LineUp(f.vic, i)
  {
    if k: nat, line :| HeldByUart(f, i, k, line) {
      PendingMessagesGiveTheLevel(f, k, line);
    } else {
      var t: nat :| HeldByTimer(f, i, t);
      PendingMessagesGiveTheTimeout(f, t);
    }
  }

  /** The end of a check in a halted step, with a request there: the machine runs again. */
  ghost predicate WakesUp(m: Machine, a: MachineAction)
    requires Shaped(m.fabric)
  {
    && a == EndCheck && CanAct(m, a) && m.pc == Checking(true)
    && (FiqPair(m.fabric.vic) || IrqPair(m.fabric.vic))
    && Act(m, a).raised == m.raised + Ts7200.Raised(m.fabric.vic)
  }

  /** Nothing else leaves a low-power state. */
  lemma OnlyWakingUpRuns(m: Machine, a: MachineAction)
    requires Shaped(m.fabric) && CanAct(m, a) && m.syscon.power != Syscon.Run
    ensures Act(m, a).syscon.power != Syscon.Run || WakesUp(m, a)
  {
    if a.Perform? && (a.access.SysconRead? || a.access.SysconWrite?) {
      assert Accessed(m, a.access).syscon.power != Syscon.Run;
    }
  }

  /** Action `k` of the run wakes the machine up. */
  ghost predicate WakesUpAt(setup: Setup, actions: seq<MachineAction>, k: int) {
    && 0 <= k < |actions|
    && IsRun(setup, actions[..k]) && WakesUp(RunMachine(setup, actions[..k]).value, actions[k])
  }

  lemma {:induction false} PrefixIsRun(setup: Setup, actions: seq<MachineAction>, i: nat)
    requires IsRun(setup, actions) && i <= |actions|
    ensures IsRun(setup, actions[..i])
    decreases |actions|
  {
    if i == |actions| {
      assert actions[..i] == actions;
    } else {
      var before := actions[..|actions| - 1];
      PrefixIsRun(setup, before, i);
      assert before[..i] == actions[..i];
    }
  }

  lemma {:induction false} NextState(setup: Setup, actions: seq<MachineAction>, i: nat)
    requires IsRun(setup, actions) && i < |actions|
    ensures IsRun(setup, actions[..i]) && IsRun(setup, actions[..i + 1])
    ensures CanAct(RunMachine(setup, actions[..i]).value, actions[i])
    ensures RunMachine(setup, actions[..i + 1]).value == Act(RunMachine(setup, actions[..i]).value, actions[i])
  {
    PrefixIsRun(setup, actions, i);
    PrefixIsRun(setup, actions, i + 1);
    assert actions[..i + 1][..i] == actions[..i];
  }

  /** Between any moment in a low-power state and a later one in which the machine runs, an enabled, active
      request woke it up and the processor was told. So no instruction begins before. */
  lemma {:induction false} WokenBeforeRunning(setup: Setup, actions: seq<MachineAction>, i: nat, j: nat)
    requires IsRun(setup, actions) && i <= j <= |actions|
    requires IsRun(setup, actions[..i]) && RunMachine(setup, actions[..i]).value.syscon.power != Syscon.Run
    requires IsRun(setup, actions[..j]) && RunMachine(setup, actions[..j]).value.syscon.power == Syscon.Run
    ensures exists k :: WakesUpAt(setup, actions, k) && i <= k < j
    decreases j - i
  {
    NextState(setup, actions, i);
    OnlyWakingUpRuns(RunMachine(setup, actions[..i]).value, actions[i]);
    if !WakesUpAt(setup, actions, i) {
      WokenBeforeRunning(setup, actions, i + 1, j);
    }
  }

  // ----- the handshake -----

  ghost function SysconOpsOf(m: Machine, a: MachineAction): seq<Syscon.SysconOp>
    requires Shaped(m.fabric) && CanAct(m, a)
  {
    match a
    case Perform(SysconRead(offset)) => [Syscon.ReadOp(offset)]
    case Perform(SysconWrite(offset, val)) => [Syscon.WriteOp(offset, val)]
    case EndCheck => if m.pc.halted && Ts7200.Raised(m.fabric.vic) != [] then [Syscon.Wake] else []
    case _ => []
  }

  /** What a run does to the system controller, in order. */
  ghost function SysconHistory(setup: Setup, actions: seq<MachineAction>): seq<Syscon.SysconOp>
    requires IsRun(setup, actions)
  {
    if actions == [] then []
    else
      var before := actions[..|actions| - 1];
      SysconHistory(setup, before) + SysconOpsOf(RunMachine(setup, before).value, actions[|actions| - 1])
  }

  lemma {:induction false} SysconFollowsItsHistory(setup: Setup, actions: seq<MachineAction>)
    requires IsRun(setup, actions)
    ensures RunMachine(setup, actions).value.syscon == Syscon.After(SysconHistory(setup, actions))
  {
    if actions != [] {
      var before := actions[..|actions| - 1];
      SysconFollowsItsHistory(setup, before);
      ActOnSyscon(RunMachine(setup, before).value, actions[|actions| - 1], SysconHistory(setup, before));
    }
  }

  lemma {:induction false} ActOnSyscon(m: Machine, a: MachineAction, done: seq<Syscon.SysconOp>)
    requires Shaped(m.fabric) && CanAct(m, a) && m.syscon == Syscon.After(done)
    ensures Act(m, a).syscon == Syscon.After(done + SysconOpsOf(m, a))
  {
    var ops := SysconOpsOf(m, a);
    if ops == [] {
      assert done + ops == done;
    } else {
      assert (done + ops)[..|done| + 1 - 1] == done;
    }
  }

  /** The machine is halted exactly when accesses of this very run made the whole handshake, in order, and
      it was not woken since. */
  lemma {:induction false} HaltNeedsTheHandshake(setup: Setup, actions: seq<MachineAction>)
    requires IsRun(setup, actions)
    ensures RunMachine(setup, actions).value.syscon.power == Syscon.Halt
       <==> Syscon.InLowPower(SysconHistory(setup, actions), Syscon.Halt)
  {
    SysconFollowsItsHistory(setup, actions);
    Syscon.LowPowerExactly(SysconHistory(setup, actions), Syscon.Halt);
  }
}
