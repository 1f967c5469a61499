/** The main loop of the system: one step runs an instruction or waits in a low-power state, drains the
    interrupt bus into the controllers, and hands their requests to the processor.

    The processor itself is not modelled: an instruction is any sequence of bus accesses. Neither are
    the devices other than the system controller and the interrupt controllers: what an access to
    another device raises, and what it sends on the bus, is arbitrary. */
module Ts7200 {
  import opened Bits
  import opened Interrupts
  import opened Memory
  import opened VicManager
  import opened VicHistory
  import opened VicUnit
  import Syscon

  datatype CpuException = FastInterrupt | Interrupt

  datatype BlockMode = Blocking | NonBlocking

  datatype SystemState = SystemState(
    frozen: bool,
    syscon: Syscon.SysconRegs,
    vic: VicPair,
    bus: seq<Message>)

  datatype Location = Location(addr: nat, kind: AccessKind)

  /** An access of the processor; `Elsewhere` without a location is what other threads send meanwhile. */
  datatype Access =
    | SysconRead(offset: nat)
    | SysconWrite(offset: nat, val: word)
    | VicRead(offset: nat)
    | VicWrite(offset: nat, val: word)
    | Elsewhere(at: Option<Location>, sent: seq<Message>, error: Option<MemException>)

  datatype AccessEffect = AccessEffect(system: SystemState, error: Option<MemException>)

  function ErrorOf<T>(result: MemResult<T>): Option<MemException> {
    match result
    case Ok(_) => None
    case Err(e) => Some(e)
  }

  function DoAccess(s: SystemState, a: Access): (r: AccessEffect)
    requires ValidPair(s.vic)
  {
    match a
    case SysconRead(offset) =>
      var o := Syscon.ReadReg(s.syscon, offset);
      AccessEffect(s.(syscon := o.regs), ErrorOf(o.result))
    case SysconWrite(offset, val) =>
      var o := Syscon.WriteReg(s.syscon, offset, val);
      AccessEffect(s.(syscon := o.regs), ErrorOf(o.result))
    case VicRead(offset) => AccessEffect(s, ErrorOf(ReadPair(s.vic, offset)))
    case VicWrite(offset, val) =>
      var w := WritePair(s.vic, offset, val);
      AccessEffect(s.(vic := w.pair), ErrorOf(w.result))
    case Elsewhere(_, sent, error) => AccessEffect(s.(bus := s.bus + sent), error)
  }

  lemma AccessKeepsValid(s: SystemState, a: Access)
    requires ValidPair(s.vic)
    ensures ValidPair(DoAccess(s, a).system.vic)
  {
    if a.VicWrite? {
      WritePairKeepsValid(s.vic, a.offset, a.val);
    }
  }

  /** The accesses of one instruction. A later exception replaces the one set aside before it. */
  function Instruction(s: SystemState, aside: Option<MemException>, accesses: seq<Access>): (r: AccessEffect)
    requires ValidPair(s.vic)
    ensures ValidPair(r.system.vic)
    decreases |accesses|
  {
    if accesses == [] then AccessEffect(s, aside)
    else
      AccessKeepsValid(s, accesses[0]);
      var e := DoAccess(s, accesses[0]);
      Instruction(e.system, if e.error.Some? then e.error else aside, accesses[1..])
  }

  datatype StepOutcome = Continues | MemoryFailure(error: MemException) | NoStandby

  datatype StepResult = StepResult(system: SystemState, raised: seq<CpuException>, outcome: StepOutcome)

  function Raised(p: VicPair): seq<CpuException> {
    (if FiqPair(p) then [FastInterrupt] else []) + (if IrqPair(p) then [CpuException.Interrupt] else [])
  }

  function Drained(s: SystemState): SystemState {
    s.(vic := DeliverAll(s.vic, s.bus), bus := [])
  }

  /** The step cannot begin: a halted system waits for a message from the bus. */
  predicate Waits(s: SystemState, mode: BlockMode) {
    !s.frozen && s.syscon.power == Syscon.Halt && mode == Blocking && s.bus == []
  }

  function Step(s: SystemState, mode: BlockMode, accesses: seq<Access>): StepResult
    requires ValidPair(s.vic) && !Waits(s, mode)
  {
    if s.frozen then StepResult(s, [], Continues)
    else
      match s.syscon.power
      case Run =>
        var e := Instruction(s, None, accesses);
        if e.error.Some? && Fatal(e.error.value) then StepResult(e.system, [], MemoryFailure(e.error.value))
        else
          var d := Drained(e.system);
          StepResult(d, Raised(d.vic), Continues)
      case Halt =>
        var d := Drained(s);
        if Raised(d.vic) != [] then StepResult(d.(syscon := Syscon.SetRunMode(d.syscon)), Raised(d.vic), Continues)
        else StepResult(d, [], Continues)
      case Standby => StepResult(s, [], NoStandby)
  }

  /** What the processor is told: FIQ first, then IRQ, each exactly when a line of either controller requests it. */
  lemma RaisedExactly(p: VicPair)
    ensures var fiq := (exists i :: RequestsFiq(p.vic1, i)) || exists i :: RequestsFiq(p.vic2, i);
            var irq := (exists i :: RequestsIrq(p.vic1, i)) || exists i :: RequestsIrq(p.vic2, i);
            && (fiq && irq ==> Raised(p) == [FastInterrupt, CpuException.Interrupt])
            && (fiq && !irq ==> Raised(p) == [FastInterrupt])
            && (!fiq && irq ==> Raised(p) == [CpuException.Interrupt])
            && (!fiq && !irq ==> Raised(p) == [])
  {
    OutputsMeanRequests(p.vic1);
    OutputsMeanRequests(p.vic2);
  }

  /** A frozen system does nothing at all, one in standby fails without doing anything, and one that is halted
      takes in the messages and goes on, woken or not: none of them makes an access. */
  lemma OnlyRunningSystemsExecute(s: SystemState, mode: BlockMode, accesses: seq<Access>)
    requires ValidPair(s.vic) && !Waits(s, mode) && (s.frozen || s.syscon.power != Syscon.Run)
    ensures var r := Step(s, mode, accesses);
            && (s.frozen ==> r == StepResult(s, [], Continues))
            && (!s.frozen && s.syscon.power == Syscon.Standby ==> r == StepResult(s, [], NoStandby))
            && (!s.frozen && s.syscon.power == Syscon.Halt ==>
                  && r.outcome == Continues && r.system.bus == []
                  && r.system.vic == DeliverAll(s.vic, s.bus)
                  && r.system.syscon.power == if Irq(r.system.vic.vic1) || Irq(r.system.vic.vic2)
                                                 || Fiq(r.system.vic.vic1) || Fiq(r.system.vic.vic2)
                                              then Syscon.Run else Syscon.Halt)
  {
  }

  // ----- the exception that decides -----

  /** All exceptions of an instruction, in the order they are raised. */
  function ErrorsOf(s: SystemState, accesses: seq<Access>): seq<MemException>
    requires ValidPair(s.vic)
    decreases |accesses|
  {
    if accesses == [] then []
    else
      AccessKeepsValid(s, accesses[0]);
      var e := DoAccess(s, accesses[0]);
      (if e.error.Some? then [e.error.value] else []) + ErrorsOf(e.system, accesses[1..])
  }

  lemma {:induction false} LastErrorStays(s: SystemState, aside: Option<MemException>, accesses: seq<Access>)
    requires ValidPair(s.vic)
    ensures var errors := ErrorsOf(s, accesses);
            Instruction(s, aside, accesses).error == if errors == [] then aside else Some(errors[|errors| - 1])
    decreases |accesses|
  {
    if accesses != [] {
      AccessKeepsValid(s, accesses[0]);
      var e := DoAccess(s, accesses[0]);
      LastErrorStays(e.system, if e.error.Some? then e.error else aside, accesses[1..]);
    }
  }

  /** The exceptions that are only logged. */
  predicate OnlyLogged(e: MemException) {
    e.StubRead? || e == StubWrite || e == InvalidAccess || (e.ContractViolation? && e.severity == Warn)
  }

  /** An instruction continues exactly when it raised nothing or, last, one of these; any other exception, if it
      comes last, is the failure the step ends with. */
  lemma {:induction false} StopsExactly(s: SystemState, mode: BlockMode, accesses: seq<Access>)
    requires ValidPair(s.vic) && !s.frozen && s.syscon.power == Syscon.Run
    ensures var errors := ErrorsOf(s, accesses);
            var last := |errors| - 1;
            Step(s, mode, accesses).outcome
              == if errors == [] || OnlyLogged(errors[last]) then Continues else MemoryFailure(errors[last])
  {
    LastErrorStays(s, None, accesses);
  }

  lemma {:induction false} LastErrorOf(s: SystemState, aside: Option<MemException>, accesses: seq<Access>, a: Access)
    requires ValidPair(s.vic)
    ensures var t := Instruction(s, aside, accesses).system;
            ErrorsOf(s, accesses + [a])
              == ErrorsOf(s, accesses) + if DoAccess(t, a).error.Some? then [DoAccess(t, a).error.value] else []
    decreases |accesses|
  {
    if accesses == [] {
      assert accesses + [a] == [a];
      assert [a][1..] == [];
    } else {
      AccessKeepsValid(s, accesses[0]);
      var e := DoAccess(s, accesses[0]);
      assert (accesses + [a])[0] == accesses[0];
      assert (accesses + [a])[1..] == accesses[1..] + [a];
      LastErrorOf(e.system, if e.error.Some? then e.error else aside, accesses[1..], a);
    }
  }

  /** What the last access of an instruction does to the step, after any accesses before it. */
  lemma {:induction false} LastAccessDecides(s: SystemState, mode: BlockMode, accesses: seq<Access>, a: Access)
    requires ValidPair(s.vic) && !s.frozen && s.syscon.power == Syscon.Run
    ensures var error := DoAccess(Instruction(s, None, accesses).system, a).error;
            var outcome := Step(s, mode, accesses + [a]).outcome;
            && (error.Some? && OnlyLogged(error.value) ==> outcome == Continues)
            && (error.Some? && !OnlyLogged(error.value) ==> outcome == MemoryFailure(error.value))
  {
    StopsExactly(s, mode, accesses + [a]);
    LastErrorOf(s, None, accesses, a);
  }

  /** An access, last in its instruction, to an offset of the system controller without a register stops the
      system, and so does a write behind the closed lock. */
  lemma {:induction false} SysconAccessStops(
      s: SystemState, mode: BlockMode, accesses: seq<Access>, offset: nat, val: word)
    requires ValidPair(s.vic) && !s.frozen && s.syscon.power == Syscon.Run
    ensures !Syscon.Mapped(offset) ==>
              && Step(s, mode, accesses + [SysconRead(offset)]).outcome == MemoryFailure(Unexpected)
              && Step(s, mode, accesses + [SysconWrite(offset, val)]).outcome.MemoryFailure?
    ensures 0x80 <= offset <= 0x9c && Instruction(s, None, accesses).system.syscon.locked ==>
              Step(s, mode, accesses + [SysconWrite(offset, val)]).outcome
                == MemoryFailure(ContractViolation(Error, None))
  {
    var t := Instruction(s, None, accesses).system;
    Syscon.ReadFailsExactly(t.syscon, offset);
    Syscon.WriteFailsExactly(t.syscon, offset, val);
    LastAccessDecides(s, mode, accesses, SysconRead(offset));
    LastAccessDecides(s, mode, accesses, SysconWrite(offset, val));
  }

  /** The same for the interrupt controllers; but a write of their protection register only warns. */
  lemma {:induction false} VicAccessStops(
      s: SystemState, mode: BlockMode, accesses: seq<Access>, base: nat, offset: nat, val: word)
    requires ValidPair(s.vic) && !s.frozen && s.syscon.power == Syscon.Run
    requires IsBase(base) && offset < 0x10000
    ensures !VicUnit.Mapped(offset) ==>
              && Step(s, mode, accesses + [VicRead(base + offset)]).outcome == MemoryFailure(Unexpected)
              && Step(s, mode, accesses + [VicWrite(base + offset, val)]).outcome == MemoryFailure(Unexpected)
    ensures offset == 0x20 ==> Step(s, mode, accesses + [VicWrite(base + offset, val)]).outcome == Continues
  {
    PairFailsExactly(Instruction(s, None, accesses).system.vic, base, offset, val);
    LastAccessDecides(s, mode, accesses, VicRead(base + offset));
    LastAccessDecides(s, mode, accesses, VicWrite(base + offset, val));
  }

  /** So does an access elsewhere that raises what an unmapped address does. */
  lemma {:induction false} UnmappedAccessStops(
      s: SystemState, mode: BlockMode, accesses: seq<Access>, at: Option<Location>)
    requires ValidPair(s.vic) && !s.frozen && s.syscon.power == Syscon.Run
    ensures Step(s, mode, accesses + [Elsewhere(at, [], Some(Unexpected))]).outcome == MemoryFailure(Unexpected)
  {
    LastAccessDecides(s, mode, accesses, Elsewhere(at, [], Some(Unexpected)));
  }

  /** So a fatal exception can go unnoticed: a store of two registers writes an unimplemented register and
      then, at the next word, a read-only one. */
  lemma {:induction false} FatalExceptionCanBeMasked(s: SystemState, mode: BlockMode, first: word, second: word)
    requires ValidPair(s.vic) && !s.frozen && s.syscon.power == Syscon.Run
    ensures var store := [SysconWrite(0x04, first), SysconWrite(0x08, second)];
            && ErrorsOf(s, store) == [Unimplemented, InvalidAccess] && !OnlyLogged(Unimplemented)
            && Step(s, mode, store).outcome == Continues
  {
    var store := [SysconWrite(0x04, first), SysconWrite(0x08, second)];
    assert store[1..] == [SysconWrite(0x08, second)];
    assert store[1..][1..] == [];
    assert ErrorsOf(s, store[1..]) == [InvalidAccess] + ErrorsOf(s, []);
    assert ErrorsOf(s, store) == [Unimplemented, InvalidAccess];
    StopsExactly(s, mode, store);
  }

  // ----- events -----

  /** What a step reports to its caller. */
  datatype Event = Halted | Break | WatchWrite(addr: nat) | WatchRead(addr: nat)

  const VIC_BASE := 0x800b_0000
  const SYSCON_BASE := 0x8093_0000

  /** The address in the bootloader that software returns to when it is done. */
  const HLE_BOOTLOADER_LR := 0x0001_74c8

  function LocationOf(a: Access): Option<Location> {
    match a
    case SysconRead(offset) => Some(Location(SYSCON_BASE + offset, ReadAccess))
    case SysconWrite(offset, _) => Some(Location(SYSCON_BASE + offset, WriteAccess))
    case VicRead(offset) => Some(Location(VIC_BASE + offset, ReadAccess))
    case VicWrite(offset, _) => Some(Location(VIC_BASE + offset, WriteAccess))
    case Elsewhere(at, _, _) => at
  }

  /** The event of an access that succeeds at a watched address. */
  function HitOf(a: Access, error: Option<MemException>, watchpoints: seq<nat>): Option<Event> {
    match LocationOf(a)
    case Some(Location(addr, kind)) =>
      if error == None && addr in watchpoints then
        Some(if kind == ReadAccess then WatchRead(addr) else WatchWrite(addr))
      else None
    case None => None
  }

  /** An access hits exactly when it succeeds and its address is watched, at the place of its device. */
  lemma HitsExactly(a: Access, error: Option<MemException>, watchpoints: seq<nat>)
    ensures a.SysconRead? ==>
              var addr := 0x8093_0000 + a.offset;
              HitOf(a, error, watchpoints)
                == if error == None && addr in watchpoints then Some(WatchRead(addr)) else None
    ensures a.SysconWrite? ==>
              var addr := 0x8093_0000 + a.offset;
              HitOf(a, error, watchpoints)
                == if error == None && addr in watchpoints then Some(WatchWrite(addr)) else None
    ensures a.VicRead? ==>
              var addr := 0x800b_0000 + a.offset;
              HitOf(a, error, watchpoints)
                == if error == None && addr in watchpoints then Some(WatchRead(addr)) else None
    ensures a.VicWrite? ==>
              var addr := 0x800b_0000 + a.offset;
              HitOf(a, error, watchpoints)
                == if error == None && addr in watchpoints then Some(WatchWrite(addr)) else None
    ensures a.Elsewhere? && a.at.Some? ==>
              var addr := a.at.value.addr;
              HitOf(a, error, watchpoints)
                == if error != None || addr !in watchpoints then None
                   else if a.at.value.kind == ReadAccess then Some(WatchRead(addr)) else Some(WatchWrite(addr))
  {
  }

  /** The hit remembered after an instruction. */
  function LastHit(s: SystemState, hit: Option<Event>, accesses: seq<Access>, watchpoints: seq<nat>): Option<Event>
    requires ValidPair(s.vic)
    decreases |accesses|
  {
    if accesses == [] then hit
    else
      AccessKeepsValid(s, accesses[0]);
      var e := DoAccess(s, accesses[0]);
      var now := HitOf(accesses[0], e.error, watchpoints);
      LastHit(e.system, if now.Some? then now else hit, accesses[1..], watchpoints)
  }

  /** All hits of an instruction, in order. */
  function HitsOf(s: SystemState, accesses: seq<Access>, watchpoints: seq<nat>): seq<Event>
    requires ValidPair(s.vic)
    decreases |accesses|
  {
    if accesses == [] then []
    else
      AccessKeepsValid(s, accesses[0]);
      var e := DoAccess(s, accesses[0]);
      var now := HitOf(accesses[0], e.error, watchpoints);
      (if now.Some? then [now.value] else []) + HitsOf(e.system, accesses[1..], watchpoints)
  }

  lemma {:induction false} LastHitStays(
      s: SystemState, hit: Option<Event>, accesses: seq<Access>, watchpoints: seq<nat>)
    requires ValidPair(s.vic)
    ensures var hits := HitsOf(s, accesses, watchpoints);
            LastHit(s, hit, accesses, watchpoints) == if hits == [] then hit else Some(hits[|hits| - 1])
    decreases |accesses|
  {
    if accesses != [] {
      AccessKeepsValid(s, accesses[0]);
      var e := DoAccess(s, accesses[0]);
      var now := HitOf(accesses[0], e.error, watchpoints);
      LastHitStays(e.system, if now.Some? then now else hit, accesses[1..], watchpoints);
    }
  }

  /** The event of a step after which the processor is at `pc`. */
  function EventOf(s: SystemState, mode: BlockMode, accesses: seq<Access>, pc: nat,
                   watchpoints: seq<nat>, breakpoints: seq<nat>): Option<Event>
    requires ValidPair(s.vic) && !Waits(s, mode)
  {
    if s.frozen || s.syscon.power != Syscon.Run || Step(s, mode, accesses).outcome != Continues then None
    else if pc == HLE_BOOTLOADER_LR then Some(Halted)
    else
      var hit := LastHit(s, None, accesses, watchpoints);
      if hit.Some? then hit else if pc in breakpoints then Some(Break) else None
  }

  predicate IsWatch(e: Event) {
    e.WatchRead? || e.WatchWrite?
  }

  /** Only a step that runs an instruction to its end reports an event: the return to the bootloader before
      all others; else the last of the watched accesses that succeeded; else a breakpoint. */
  lemma {:induction false} EventsExactly(s: SystemState, mode: BlockMode, accesses: seq<Access>, pc: nat,
                                         watchpoints: seq<nat>, breakpoints: seq<nat>)
    requires ValidPair(s.vic) && !s.frozen && s.syscon.power == Syscon.Run
    ensures var event := EventOf(s, mode, accesses, pc, watchpoints, breakpoints);
            var hits := HitsOf(s, accesses, watchpoints);
            var errors := ErrorsOf(s, accesses);
            var ended := errors == [] || OnlyLogged(errors[|errors| - 1]);
            && (event == Some(Halted) <==> ended && pc == 0x0001_74c8)
            && (event.Some? && IsWatch(event.value) <==> ended && pc != 0x0001_74c8 && hits != [])
            && (event.Some? && IsWatch(event.value) ==> event.value == hits[|hits| - 1])
            && (event == Some(Break) <==> ended && pc != 0x0001_74c8 && hits == [] && pc in breakpoints)
  {
    StopsExactly(s, mode, accesses);
    LastHitStays(s, None, accesses, watchpoints);
    HitsAreWatched(s, accesses, watchpoints);
    var hits := HitsOf(s, accesses, watchpoints);
    assert hits != [] ==> hits[|hits| - 1] in hits;
  }

  lemma {:induction false} HitsAreWatched(s: SystemState, accesses: seq<Access>, watchpoints: seq<nat>)
    requires ValidPair(s.vic)
    ensures forall e :: e in HitsOf(s, accesses, watchpoints) ==> IsWatch(e) && e.addr in watchpoints
    decreases |accesses|
  {
    if accesses != [] {
      AccessKeepsValid(s, accesses[0]);
      HitsAreWatched(DoAccess(s, accesses[0]).system, accesses[1..], watchpoints);
    }
  }

  // ----- runs -----

  /** A step of the main loop, or something another thread or the debugger does between steps. */
  datatype SystemAction =
    | DeviceSends(m: Message)
    | MainStep(mode: BlockMode, accesses: seq<Access>)
    | Freeze

  function NewSystem(): SystemState {
    SystemState(false, Syscon.NewHle(), ResetPair(), [])
  }

  predicate CanAct(s: SystemState, a: SystemAction) {
    a.MainStep? ==> !Waits(s, a.mode)
  }

  function Act(s: SystemState, a: SystemAction): SystemState
    requires ValidPair(s.vic) && CanAct(s, a)
  {
    match a
    case DeviceSends(m) => s.(bus := s.bus + [m])
    case MainStep(mode, accesses) => Step(s, mode, accesses).system
    case Freeze => s.(frozen := true)
  }

  lemma {:induction false} DeliverAllKeepsValid(p: VicPair, ms: seq<Message>)
    requires ValidPair(p)
    ensures ValidPair(DeliverAll(p, ms))
  {
    DeliverAllKeepsRest(p, ms);
  }

  lemma ActKeepsValid(s: SystemState, a: SystemAction)
    requires ValidPair(s.vic) && CanAct(s, a)
    ensures ValidPair(Act(s, a).vic)
  {
    DeliverAllKeepsValid(s.vic, s.bus);
    if a.MainStep? {
      var e := Instruction(s, None, a.accesses);
      DeliverAllKeepsValid(e.system.vic, e.system.bus);
    }
  }

  /** The state after a run from power-on, if each of its actions was possible in turn. */
  function RunSystem(actions: seq<SystemAction>): (r: Option<SystemState>)
    ensures r.Some? ==> ValidPair(r.value.vic)
  {
    if actions == [] then Some(NewSystem())
    else
      match RunSystem(actions[..|actions| - 1])
      case None => None
      case Some(s) =>
        var a := actions[|actions| - 1];
        if CanAct(s, a) then
          ActKeepsValid(s, a);
          Some(Act(s, a))
        else None
  }

  /** All exceptions the processor was told of in a run, in order. */
  function RaisedIn(actions: seq<SystemAction>): seq<CpuException>
    requires RunSystem(actions).Some?
  {
    if actions == [] then []
    else
      var before := actions[..|actions| - 1];
      var a := actions[|actions| - 1];
      RaisedIn(before) +
      if a.MainStep? then Step(RunSystem(before).value, a.mode, a.accesses).raised else []
  }

  /** The number of steps of the main loop in a run. */
  function StepsIn(actions: seq<SystemAction>): nat {
    if actions == [] then 0
    else StepsIn(actions[..|actions| - 1]) + if actions[|actions| - 1].MainStep? then 1 else 0
  }

  ghost predicate IsRun(actions: seq<SystemAction>) {
    RunSystem(actions).Some?
  }

  lemma {:induction false} PrefixIsRun(actions: seq<SystemAction>, i: nat)
    requires IsRun(actions) && i <= |actions|
    ensures IsRun(actions[..i])
    decreases |actions|
  {
    if i == |actions| {
      assert actions[..i] == actions;
    } else {
      var before := actions[..|actions| - 1];
      PrefixIsRun(before, i);
      assert before[..i] == actions[..i];
    }
  }

  /** The state before action `i` of a run. */
  ghost function At(actions: seq<SystemAction>, i: nat): (s: SystemState)
    requires IsRun(actions) && i <= |actions|
    ensures ValidPair(s.vic)
  {
    PrefixIsRun(actions, i);
    RunSystem(actions[..i]).value
  }

  lemma {:induction false} NextState(actions: seq<SystemAction>, i: nat)
    requires IsRun(actions) && i < |actions|
    ensures CanAct(At(actions, i), actions[i])
    ensures At(actions, i + 1) == Act(At(actions, i), actions[i])
  {
    PrefixIsRun(actions, i + 1);
    assert actions[..i + 1][..i] == actions[..i];
  }

  // ----- halting and waking -----

  /** A step begins an instruction. */
  predicate Executes(s: SystemState, a: SystemAction) {
    a.MainStep? && !s.frozen && s.syscon.power == Syscon.Run
  }

  /** A halted system takes a step after which a controller requests an interrupt; the processor is told
      and the system runs again. */
  ghost predicate WakesUp(s: SystemState, a: SystemAction)
    requires ValidPair(s.vic) && CanAct(s, a)
  {
    && a.MainStep? && !s.frozen && s.syscon.power == Syscon.Halt
    && var r := Step(s, a.mode, a.accesses);
       && r.system.syscon.power == Syscon.Run
       && (FiqPair(r.system.vic) || IrqPair(r.system.vic))
       && (FastInterrupt in r.raised <==> FiqPair(r.system.vic))
       && (CpuException.Interrupt in r.raised <==> IrqPair(r.system.vic))
  }

  lemma HaltEndsOnlyByWakingUp(s: SystemState, a: SystemAction)
    requires ValidPair(s.vic) && CanAct(s, a) && s.syscon.power == Syscon.Halt
    ensures Act(s, a).syscon.power == Syscon.Halt || WakesUp(s, a)
  {
  }

  /** Between entering Halt and the next instruction the system was woken by an enabled, active request. */
  lemma {:induction false} NoInstructionBeforeWakeUp(actions: seq<SystemAction>, i: nat, j: nat)
    requires IsRun(actions) && i <= j < |actions|
    requires At(actions, i).syscon.power == Syscon.Halt
    requires Executes(At(actions, j), actions[j])
    ensures exists k :: WakesUpAt(actions, k) && i <= k < j
    decreases j - i
  {
    HaltedActionHaltsOrWakes(actions, i);
    if !WakesUpAt(actions, i) {
      NoInstructionBeforeWakeUp(actions, i + 1, j);
    }
  }

  lemma {:induction false} HaltedActionHaltsOrWakes(actions: seq<SystemAction>, i: nat)
    requires IsRun(actions) && i < |actions| && At(actions, i).syscon.power == Syscon.Halt
    ensures At(actions, i + 1).syscon.power == Syscon.Halt || WakesUpAt(actions, i)
  {
    NextState(actions, i);
    HaltEndsOnlyByWakingUp(At(actions, i), actions[i]);
  }

  ghost predicate WakesUpAt(actions: seq<SystemAction>, k: int) {
    && IsRun(actions) && 0 <= k < |actions|
    && CanAct(At(actions, k), actions[k]) && WakesUp(At(actions, k), actions[k])
  }

  /** With a request pending once the bus is drained, the next step of a halted system wakes it exactly
      when that step does not block on an empty bus. */
  lemma {:induction false} PendingRequestWakesExactly(s: SystemState, mode: BlockMode, accesses: seq<Access>)
    requires ValidPair(s.vic) && !s.frozen && s.syscon.power == Syscon.Halt
    requires FiqPair(Drained(s).vic) || IrqPair(Drained(s).vic)
    ensures CanAct(s, MainStep(mode, accesses)) && WakesUp(s, MainStep(mode, accesses))
       <==> mode == NonBlocking || s.bus != []
  {
  }

  /** Only steps of the main loop, with instructions of a single access. */
  predicate OneAccessEach(actions: seq<SystemAction>) {
    forall k :: 0 <= k < |actions| ==> actions[k].MainStep? && |actions[k].accesses| == 1
  }

  /** An instruction that makes one harmless access to one of the two controllers, with nothing on the bus. */
  lemma {:induction false} OneAccess(actions: seq<SystemAction>, s: SystemState, a: Access)
    requires RunSystem(actions) == Some(s) && ValidPair(s.vic)
    requires !s.frozen && s.syscon.power == Syscon.Run && s.bus == []
    requires !a.Elsewhere? && DoAccess(s, a).error == None
    ensures RunSystem(actions + [MainStep(Blocking, [a])]) == Some(DoAccess(s, a).system)
  {
    var longer := actions + [MainStep(Blocking, [a])];
    assert longer[..|longer| - 1] == actions;
    AccessKeepsValid(s, a);
    var t := DoAccess(s, a).system;
    assert [a][1..] == [];
    assert Instruction(t, None, []) == AccessEffect(t, None);
    assert Instruction(s, None, [a]) == AccessEffect(t, None);
    assert Drained(t) == t;
  }

  /** And it can be asked to block so: software enables an interrupt, raises it, and halts, one access to
      an instruction, and the halted system then waits for a message although the request is there. */
  lemma {:induction false} PendingRequestCanWait() returns (actions: seq<SystemAction>)
    ensures IsRun(actions) && OneAccessEach(actions)
    ensures Waits(RunSystem(actions).value, Blocking) && IrqPair(RunSystem(actions).value.vic)
  {
    var s := NewSystem();
    OneAccess([], s, VicWrite(0x10, 1));
    var s1 := DoAccess(s, VicWrite(0x10, 1)).system;
    actions := [MainStep(Blocking, [VicWrite(0x10, 1)])];
    assert [] + actions == actions;
    OneAccess(actions, s1, VicWrite(0x18, 1));
    var s2 := DoAccess(s1, VicWrite(0x18, 1)).system;
    actions := actions + [MainStep(Blocking, [VicWrite(0x18, 1)])];
    SoftwareInterruptIsPending(s2.vic.vic1);
    actions := ThenHalts(actions, s2);
  }

  lemma SoftwareInterruptIsPending(v: VicRegs)
    requires v == ResetRegs().(enabled := 1, software := Union(0, 1))
    ensures Irq(v)
  {
    BitOfOr(0, 1, 0);
    assert RequestsIrq(v, 0);
    OutputsMeanRequests(v);
  }

  /** The handshake that halts a running system, one access to an instruction. */
  lemma {:induction false} ThenHalts(actions: seq<SystemAction>, s: SystemState) returns (all: seq<SystemAction>)
    requires RunSystem(actions) == Some(s) && ValidPair(s.vic) && OneAccessEach(actions)
    requires !s.frozen && s.syscon.power == Syscon.Run && s.bus == []
    ensures IsRun(all) && OneAccessEach(all)
    ensures var t := RunSystem(all).value; t == s.(syscon := t.syscon) && t.syscon.power == Syscon.Halt
  {
    OneAccess(actions, s, SysconWrite(0xc0, 0xaa));
    var t := DoAccess(s, SysconWrite(0xc0, 0xaa)).system;
    all := actions + [MainStep(Blocking, [SysconWrite(0xc0, 0xaa)])];
    OneAccess(all, t, SysconWrite(0x80, 1));
    var u := DoAccess(t, SysconWrite(0x80, 1)).system;
    all := all + [MainStep(Blocking, [SysconWrite(0x80, 1)])];
    OneAccess(all, u, SysconRead(0x08));
    all := all + [MainStep(Blocking, [SysconRead(0x08)])];
  }

  // ----- the system controller inside the system -----

  function SysconOpOf(a: Access): seq<Syscon.SysconOp> {
    match a
    case SysconRead(offset) => [Syscon.ReadOp(offset)]
    case SysconWrite(offset, val) => [Syscon.WriteOp(offset, val)]
    case _ => []
  }

  function SysconOpsOf(accesses: seq<Access>): seq<Syscon.SysconOp> {
    if accesses == [] then [] else SysconOpOf(accesses[0]) + SysconOpsOf(accesses[1..])
  }

  /** What a run does to the system controller, in order. */
  function SysconHistory(actions: seq<SystemAction>): seq<Syscon.SysconOp>
    requires RunSystem(actions).Some?
  {
    if actions == [] then []
    else
      var before := actions[..|actions| - 1];
      var s := RunSystem(before).value;
      var a := actions[|actions| - 1];
      SysconHistory(before) +
      if Executes(s, a) then SysconOpsOf(a.accesses)
      else if s.syscon.power == Syscon.Halt && Act(s, a).syscon.power == Syscon.Run then [Syscon.Wake]
      else []
  }

  lemma AccessOnSyscon(s: SystemState, a: Access)
    requires ValidPair(s.vic)
    ensures DoAccess(s, a).system.syscon == Syscon.ApplyAll(s.syscon, SysconOpOf(a))
  {
  }

  lemma {:induction false} InstructionOnSyscon(s: SystemState, aside: Option<MemException>, accesses: seq<Access>)
    requires ValidPair(s.vic)
    ensures Instruction(s, aside, accesses).system.syscon == Syscon.ApplyAll(s.syscon, SysconOpsOf(accesses))
    decreases |accesses|
  {
    if accesses != [] {
      AccessKeepsValid(s, accesses[0]);
      var e := DoAccess(s, accesses[0]);
      InstructionOnSyscon(e.system, if e.error.Some? then e.error else aside, accesses[1..]);
      AccessOnSyscon(s, accesses[0]);
      Syscon.AppliedInTurn(s.syscon, SysconOpOf(accesses[0]), SysconOpsOf(accesses[1..]));
    }
  }

  /** In every run, the system controller is in the state its own history of operations gives. */
  lemma {:induction false} SysconFollowsItsHistory(actions: seq<SystemAction>)
    requires IsRun(actions)
    ensures RunSystem(actions).value.syscon == Syscon.After(SysconHistory(actions))
  {
    if actions != [] {
      var before := actions[..|actions| - 1];
      SysconFollowsItsHistory(before);
      var s := RunSystem(before).value;
      var a := actions[|actions| - 1];
      if Executes(s, a) {
        InstructionOnSyscon(s, None, a.accesses);
        Syscon.AfterAppended(SysconHistory(before), SysconOpsOf(a.accesses));
      } else {
        IdleActionOnSyscon(s, a, SysconHistory(before));
      }
    }
  }

  lemma {:induction false} IdleActionOnSyscon(s: SystemState, a: SystemAction, done: seq<Syscon.SysconOp>)
    requires ValidPair(s.vic) && CanAct(s, a) && !Executes(s, a) && s.syscon == Syscon.After(done)
    ensures var ops := if s.syscon.power == Syscon.Halt && Act(s, a).syscon.power == Syscon.Run
                       then [Syscon.Wake] else [];
            Act(s, a).syscon == Syscon.After(done + ops)
  {
    assert done + [] == done;
    assert (done + [Syscon.Wake])[..|done|] == done;
  }

  /** A halted system got there through the whole handshake, done by instructions of the run. */
  lemma {:induction false} HaltNeedsTheHandshake(actions: seq<SystemAction>)
    requires IsRun(actions)
    ensures RunSystem(actions).value.syscon.power == Syscon.Halt
       <==> Syscon.InLowPower(SysconHistory(actions), Syscon.Halt)
  {
    SysconFollowsItsHistory(actions);
    Syscon.LowPowerExactly(SysconHistory(actions), Syscon.Halt);
  }

  // ----- the system -----

  class System {
    var frozen: bool
    const syscon: Syscon.Syscon
    const vicmgr: VicManager
    const bus: Channel<Message>
    var raised: seq<CpuException> // handed to the processor so far
    var watchpoints: seq<nat>
    var breakpoints: seq<nat>

    ghost predicate Valid()
      reads vicmgr, vicmgr.vic1, vicmgr.vic2, vicmgr.vic1.slots, vicmgr.vic2.slots
    {
      vicmgr.Valid()
    }

    function View(): SystemState
      reads this, syscon, bus
      reads vicmgr, vicmgr.vic1, vicmgr.vic2, vicmgr.vic1.slots, vicmgr.vic2.slots
    {
      SystemState(frozen, syscon.View(), vicmgr.View(), bus.queue)
    }

    constructor ()
      ensures Valid() && View() == NewSystem() && raised == [] && watchpoints == [] && breakpoints == []
    {
      frozen := false;
      syscon := new Syscon.Syscon();
      vicmgr := new VicManager();
      bus := new Channel<Message>();
      raised, watchpoints, breakpoints := [], [], [];
    }

    /** From now on every step does nothing. */
    method FreezeSystem()
      modifies this`frozen
      ensures View() == Act(old(View()), Freeze)
      requires Valid()
    {
      frozen := true;
    }

    method TellProcessor()
      requires Valid()
      modifies this`raised
      ensures raised == old(raised) + Raised(View().vic)
    {
      if vicmgr.RequestsFiqNow() {
        raised := raised + [FastInterrupt];
      }
      if vicmgr.RequestsIrqNow() {
        raised := raised + [CpuException.Interrupt];
      }
    }

    /** Deliver the messages on the bus, then tell the processor what is requested. A blocking receive
        returns only once there is a message. */
    method CheckDeviceInterrupts(mode: BlockMode)
      requires Valid() && (mode == Blocking ==> bus.queue != [])
      modifies this`raised, bus, vicmgr.vic1`status, vicmgr.vic2`status
      ensures Valid() && View() == Drained(old(View()))
      ensures raised == old(raised) + Raised(View().vic)
    {
      if mode == Blocking {
        var first := bus.TryRecv();
        vicmgr.Handle(first.value);
      }
      vicmgr.DrainBus(bus);
      TellProcessor();
    }

    method Perform(a: Access) returns (error: Option<MemException>)
      requires Valid()
      modifies syscon, bus, vicmgr.vic1, vicmgr.vic2, vicmgr.vic1.slots, vicmgr.vic2.slots
      ensures Valid() && AccessEffect(View(), error) == DoAccess(old(View()), a)
    {
      match a {
        case SysconRead(offset) =>
          var result := syscon.R32(offset);
          error := ErrorOf(result);
        case SysconWrite(offset, val) =>
          var result := syscon.W32(offset, val);
          error := ErrorOf(result);
        case VicRead(offset) =>
          error := ErrorOf(vicmgr.R32(offset));
        case VicWrite(offset, val) =>
          var result := vicmgr.W32(offset, val);
          error := ErrorOf(result);
        case Elsewhere(_, sent, raisedThere) =>
          bus.SendAll(sent);
          error := raisedThere;
      }
    }

    /** One instruction of the processor, as the accesses it makes. */
    method RunInstruction(accesses: seq<Access>) returns (aside: Option<MemException>, hit: Option<Event>)
      requires Valid()
      modifies syscon, bus, vicmgr.vic1, vicmgr.vic2, vicmgr.vic1.slots, vicmgr.vic2.slots
      ensures Valid() && AccessEffect(View(), aside) == Instruction(old(View()), None, accesses)
      ensures hit == LastHit(old(View()), None, accesses, watchpoints)
    {
      aside, hit := None, None;
      var k := 0;
      while k < |accesses|
        invariant 0 <= k <= |accesses|
        invariant Valid()
        invariant Instruction(View(), aside, accesses[k..]) == Instruction(old(View()), None, accesses)
        invariant LastHit(View(), hit, accesses[k..], watchpoints) == LastHit(old(View()), None, accesses, watchpoints)
      {
        assert accesses[k..][1..] == accesses[k + 1..];
        var error := Perform(accesses[k]);
        var now := HitOf(accesses[k], error, watchpoints);
        if error.Some? {
          aside := error;
        }
        if now.Some? {
          hit := now;
        }
        k := k + 1;
      }
    }

    /** One step, after which the processor is at `pc` if it ran an instruction. */
    method StepOnce(mode: BlockMode, accesses: seq<Access>, pc: nat)
      returns (outcome: StepOutcome, event: Option<Event>)
      requires Valid() && !Waits(View(), mode)
      modifies this`raised, syscon, bus, vicmgr.vic1, vicmgr.vic2, vicmgr.vic1.slots, vicmgr.vic2.slots
      ensures Valid()
      ensures var r := Step(old(View()), mode, accesses);
              View() == r.system && raised == old(raised) + r.raised && outcome == r.outcome
      ensures event == EventOf(old(View()), mode, accesses, pc, watchpoints, breakpoints)
    {
      outcome, event := Continues, None;
      if frozen {
        return;
      }
      match syscon.power {
        case Run =>
          var aside, hit := RunInstruction(accesses);
          if aside.Some? && Fatal(aside.value) {
            return MemoryFailure(aside.value), None;
          }
          CheckDeviceInterrupts(NonBlocking);
          if pc == HLE_BOOTLOADER_LR {
            event := Some(Halted);
          } else if hit.Some? {
            event := hit;
          } else if pc in breakpoints {
            event := Some(Break);
          }
        case Halt =>
          CheckDeviceInterrupts(mode);
          if vicmgr.RequestsFiqNow() || vicmgr.RequestsIrqNow() {
            syscon.WakeUp();
          }
        case Standby =>
          outcome := NoStandby;
      }
    }
  }
}
