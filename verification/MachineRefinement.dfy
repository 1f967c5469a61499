/** The fine-grained machine refines the coarse main loop: whatever other threads do between the accesses
    of an instruction and between the receives of a drain, the machine is at the end of each step where a
    run of the main loop with atomic steps is. */
module MachineRefinement {
  import opened Fabric
  import opened Interrupts
  import opened Machine
  import opened Memory
  import opened VicManager
  import Syscon
  import Ts7200
  import UartState

  /** The machine as the coarse main loop sees it. */
  function View(m: Machine): Ts7200.SystemState {
    Ts7200.SystemState(m.frozen, m.syscon, m.fabric.vic, m.fabric.bus)
  }

  function Sent(s: Ts7200.SystemState, ms: seq<Message>): Ts7200.SystemState {
    s.(bus := s.bus + ms)
  }

  predicate FatalAside(aside: Option<MemException>) {
    aside.Some? && Fatal(aside.value)
  }

  /** The coarse state `s` stands for the machine: it equals it between steps; within an instruction the
      accesses made so far lead from it to the machine; within a drain, draining both gives the same. */
  ghost predicate Matches(m: Machine, s: Ts7200.SystemState, mode: Ts7200.BlockMode, accesses: seq<Ts7200.Access>)
    requires Shaped(m.fabric) && ValidPair(s.vic)
  {
    match m.pc
    case Between => s == View(m)
    case Stopped(_) => s == View(m)
    case Executing(aside) =>
      && !s.frozen && s.syscon.power == Syscon.Run
      && Ts7200.Instruction(s, None, accesses) == Ts7200.AccessEffect(View(m), aside)
    case Checking(false) =>
      var e := Ts7200.Instruction(s, None, accesses);
      && !s.frozen && s.syscon.power == Syscon.Run
      && !FatalAside(e.error) && Ts7200.Drained(e.system) == Ts7200.Drained(View(m))
    case Checking(true) =>
      && !s.frozen && s.syscon.power == Syscon.Halt && !Ts7200.Waits(s, mode)
      && Ts7200.Drained(s) == Ts7200.Drained(View(m))
  }

  // ----- laws of the coarse steps -----

  lemma {:induction false} OneMoreAccess(
      s: Ts7200.SystemState, aside: Option<MemException>, accesses: seq<Ts7200.Access>, a: Ts7200.Access)
    requires ValidPair(s.vic)
    ensures var e := Ts7200.Instruction(s, aside, accesses);
            var d := Ts7200.DoAccess(e.system, a);
            var error := if d.error.Some? then d.error else e.error;
            Ts7200.Instruction(s, aside, accesses + [a]) == Ts7200.AccessEffect(d.system, error)
    decreases |accesses|
  {
    if accesses == [] {
      assert accesses + [a] == [a];
      assert [a][1..] == [];
    } else {
      Ts7200.AccessKeepsValid(s, accesses[0]);
      var d := Ts7200.DoAccess(s, accesses[0]);
      assert (accesses + [a])[1..] == accesses[1..] + [a];
      OneMoreAccess(d.system, if d.error.Some? then d.error else aside, accesses[1..], a);
    }
  }

  lemma {:induction false} DeliverInTurn(p: VicPair, first: seq<Message>, second: seq<Message>)
    ensures DeliverAll(p, first + second) == DeliverAll(DeliverAll(p, first), second)
    decreases |first|
  {
    if first == [] {
      assert first + second == second;
    } else {
      assert (first + second)[1..] == first[1..] + second;
      DeliverInTurn(Deliver(p, first[0]), first[1..], second);
    }
  }

  /** Messages sent during a drain might as well have been sent before it. */
  lemma SendingCommutesWithDraining(s: Ts7200.SystemState, t: Ts7200.SystemState, ms: seq<Message>)
    requires Ts7200.Drained(s) == Ts7200.Drained(t)
    ensures Ts7200.Drained(Sent(s, ms)) == Ts7200.Drained(Sent(t, ms))
  {
    DeliverInTurn(s.vic, s.bus, ms);
    DeliverInTurn(t.vic, t.bus, ms);
  }

  lemma {:induction false} OneMoreAction(
      coarse: seq<Ts7200.SystemAction>, s: Ts7200.SystemState, a: Ts7200.SystemAction)
    requires Ts7200.RunSystem(coarse) == Some(s) && ValidPair(s.vic) && Ts7200.CanAct(s, a)
    ensures Ts7200.RunSystem(coarse + [a]) == Some(Ts7200.Act(s, a))
    ensures ValidPair(Ts7200.Act(s, a).vic)
    ensures a.MainStep? ==>
              && Ts7200.RaisedIn(coarse + [a]) == Ts7200.RaisedIn(coarse) + Ts7200.Step(s, a.mode, a.accesses).raised
              && Ts7200.StepsIn(coarse + [a]) == Ts7200.StepsIn(coarse) + 1
    ensures !a.MainStep? ==>
              && Ts7200.RaisedIn(coarse + [a]) == Ts7200.RaisedIn(coarse)
              && Ts7200.StepsIn(coarse + [a]) == Ts7200.StepsIn(coarse)
  {
    assert (coarse + [a])[..|coarse|] == coarse;
    Ts7200.ActKeepsValid(s, a);
  }

  // ----- other threads -----

  /** A step of another thread sends at most one message and changes nothing else the main loop sees. */
  lemma OtherThreadOnlySends(m: Machine, x: FabricAction)
    requires Shaped(m.fabric) && IsOtherThread(x) && FabricEnabled(m.fabric, x)
    ensures var sends := Sends(m.fabric, x);
            && |sends| <= 1
            && View(Act(m, OtherThread(x))) == Sent(View(m), sends)
  {
    if x.UartStep? {
      UartStepSends(m.fabric, x.k, x.a, UartState.TxLine);
    }
  }

  /** The coarse run that stands for the machine, with what `Matches` needs. */
  datatype Witness = Witness(
    coarse: seq<Ts7200.SystemAction>,
    state: Ts7200.SystemState,
    mode: Ts7200.BlockMode,
    accesses: seq<Ts7200.Access>,
    begun: nat) // steps of the machine so far

  predicate BetweenSteps(pc: LoopPc) {
    pc == Between || pc.Stopped?
  }

  ghost predicate Stands(w: Witness, m: Machine) {
    && Shaped(m.fabric) && ValidPair(w.state.vic)
    && Ts7200.RunSystem(w.coarse) == Some(w.state)
    && Ts7200.RaisedIn(w.coarse) == m.raised
    && w.begun == Ts7200.StepsIn(w.coarse) + (if BetweenSteps(m.pc) then 0 else 1)
    && Matches(m, w.state, w.mode, w.accesses)
  }

  /** The coarse run of `v` goes on from that of `w`. */
  predicate GoesOn(w: Witness, v: Witness) {
    w.coarse <= v.coarse
  }

  lemma SimulateOtherThread(m: Machine, x: FabricAction, w: Witness) returns (v: Witness)
    requires Stands(w, m) && CanAct(m, OtherThread(x))
    ensures Stands(v, Act(m, OtherThread(x)))
    ensures GoesOn(w, v) && v.begun == w.begun
  {
    var sends := Sends(m.fabric, x);
    OtherThreadOnlySends(m, x);
    ActOnFabric(m, OtherThread(x));
    if sends == [] {
      assert Sent(View(m), []) == View(m);
      v := w;
    } else if m.pc.Executing? || m.pc == Checking(false) {
      SendDuringInstruction(m, Act(m, OtherThread(x)), sends, w);
      v := w.(accesses := w.accesses + [Ts7200.Elsewhere(None, sends, None)]);
    } else {
      SendOutsideInstruction(m, Act(m, OtherThread(x)), sends, w);
      v := w.(coarse := w.coarse + [Ts7200.DeviceSends(sends[0])], state := Sent(w.state, sends));
    }
  }

  /** Sent while an instruction runs or its drain, a message is one more effect of the instruction. */
  lemma SendDuringInstruction(m: Machine, n: Machine, sends: seq<Message>, w: Witness)
    requires Stands(w, m) && (m.pc.Executing? || m.pc == Checking(false))
    requires Shaped(n.fabric) && n.pc == m.pc && n.raised == m.raised && View(n) == Sent(View(m), sends)
    ensures Stands(w.(accesses := w.accesses + [Ts7200.Elsewhere(None, sends, None)]), n)
  {
    OneMoreAccess(w.state, None, w.accesses, Ts7200.Elsewhere(None, sends, None));
    if m.pc == Checking(false) {
      SendingCommutesWithDraining(Ts7200.Instruction(w.state, None, w.accesses).system, View(m), sends);
    }
  }

  /** Sent at any other time, it is a message sent before the next coarse step. */
  lemma SendOutsideInstruction(m: Machine, n: Machine, sends: seq<Message>, w: Witness)
    requires Stands(w, m) && !m.pc.Executing? && m.pc != Checking(false) && |sends| == 1
    requires Shaped(n.fabric) && n.pc == m.pc && n.raised == m.raised && View(n) == Sent(View(m), sends)
    ensures Stands(w.(coarse := w.coarse + [Ts7200.DeviceSends(sends[0])], state := Sent(w.state, sends)), n)
  {
    OneMoreAction(w.coarse, w.state, Ts7200.DeviceSends(sends[0]));
    if m.pc == Checking(true) {
      SendingCommutesWithDraining(w.state, View(m), sends);
    }
    assert sends == [sends[0]];
  }

  // ----- the main loop -----

  /** An access as the coarse main loop sees it. */
  ghost function CoarseAccess(m: Machine, access: CpuAccess): Ts7200.Access
    requires Shaped(m.fabric) && (access.OfFabric? ==> IsAccess(access.a) && FabricEnabled(m.fabric, access.a))
  {
    match access
    case SysconRead(offset) => Ts7200.SysconRead(offset)
    case SysconWrite(offset, val) => Ts7200.SysconWrite(offset, val)
    case VicRead(offset) => Ts7200.VicRead(offset)
    case OfFabric(VicWrite(offset, val)) => Ts7200.VicWrite(offset, val)
    case OfFabric(a) => Ts7200.Elsewhere(None, Sends(m.fabric, a), FabricError(m.fabric, a))
    case Plain(error) => Ts7200.Elsewhere(None, [], error)
  }

  lemma AccessIsCoarse(m: Machine, access: CpuAccess)
    requires Shaped(m.fabric) && CanAct(m, Perform(access))
    ensures Ts7200.DoAccess(View(m), CoarseAccess(m, access))
         == Ts7200.AccessEffect(View(Act(m, Perform(access))), AccessError(m, access))
  {
    assert m.fabric.bus + [] == m.fabric.bus;
  }

  lemma SimulatePerform(m: Machine, access: CpuAccess, w: Witness) returns (v: Witness)
    requires Stands(w, m) && CanAct(m, Perform(access))
    ensures Stands(v, Act(m, Perform(access)))
    ensures GoesOn(w, v) && v.begun == w.begun
  {
    ActOnFabric(m, Perform(access));
    AccessIsCoarse(m, access);
    OneMoreAccess(w.state, None, w.accesses, CoarseAccess(m, access));
    v := w.(accesses := w.accesses + [CoarseAccess(m, access)]);
  }

  lemma ReceivingIsDraining(m: Machine)
    requires Shaped(m.fabric) && m.fabric.bus != []
    ensures Ts7200.Drained(View(Received(m))) == Ts7200.Drained(View(m))
  {
  }

  lemma SimulateBegin(m: Machine, mode: Ts7200.BlockMode, w: Witness) returns (v: Witness)
    requires Stands(w, m) && CanAct(m, Begin(mode))
    ensures Stands(v, Act(m, Begin(mode)))
    ensures GoesOn(w, v) && v.begun == w.begun + 1
  {
    ActOnFabric(m, Begin(mode));
    if m.syscon.power == Syscon.Standby {
      v := BeginInStandby(m, mode, w);
    } else {
      if m.syscon.power == Syscon.Halt && mode == Ts7200.Blocking {
        ReceivingIsDraining(m);
      }
      v := w.(mode := mode, accesses := [], begun := w.begun + 1);
    }
  }

  lemma BeginInStandby(m: Machine, mode: Ts7200.BlockMode, w: Witness) returns (v: Witness)
    requires Stands(w, m) && CanAct(m, Begin(mode)) && m.syscon.power == Syscon.Standby
    ensures Stands(v, Act(m, Begin(mode)))
    ensures GoesOn(w, v) && v.begun == w.begun + 1
  {
    var step := Ts7200.MainStep(mode, []);
    OneMoreAction(w.coarse, w.state, step);
    v := w.(coarse := w.coarse + [step], begun := w.begun + 1);
    assert m.raised + [] == m.raised;
  }

  lemma SimulateEndInstruction(m: Machine, w: Witness) returns (v: Witness)
    requires Stands(w, m) && CanAct(m, EndInstruction)
    ensures Stands(v, Act(m, EndInstruction))
    ensures GoesOn(w, v) && v.begun == w.begun
  {
    if FatalAside(m.pc.aside) {
      v := FailingInstruction(m, w);
    } else {
      v := w;
    }
  }

  lemma FailingInstruction(m: Machine, w: Witness) returns (v: Witness)
    requires Stands(w, m) && CanAct(m, EndInstruction) && FatalAside(m.pc.aside)
    ensures Stands(v, Act(m, EndInstruction))
    ensures GoesOn(w, v) && v.begun == w.begun
  {
    var step := Ts7200.MainStep(w.mode, w.accesses);
    var r := Ts7200.Step(w.state, w.mode, w.accesses);
    assert r.system == View(m) && r.raised == [];
    OneMoreAction(w.coarse, w.state, step);
    v := w.(coarse := w.coarse + [step], state := View(m));
    assert m.raised + [] == m.raised;
  }

  /** The end of a check is the end of the coarse step, which raises the same exceptions. */
  lemma SimulateEndCheck(m: Machine, w: Witness) returns (v: Witness)
    requires Stands(w, m) && CanAct(m, EndCheck)
    ensures Stands(v, Act(m, EndCheck))
    ensures GoesOn(w, v) && v.begun == w.begun
    ensures Ts7200.CanAct(w.state, Ts7200.MainStep(w.mode, w.accesses))
    ensures Act(m, EndCheck).raised == m.raised + Ts7200.Step(w.state, w.mode, w.accesses).raised
  {
    var step := Ts7200.MainStep(w.mode, w.accesses);
    assert Ts7200.Drained(View(m)) == View(m);
    OneMoreAction(w.coarse, w.state, step);
    v := w.(coarse := w.coarse + [step], state := View(Act(m, EndCheck)));
    if m.pc.halted && Ts7200.Raised(m.fabric.vic) == [] {
      assert m.raised + [] == m.raised;
    }
  }

  lemma SimulateStep(m: Machine, a: MachineAction, w: Witness) returns (v: Witness)
    requires Stands(w, m) && CanAct(m, a)
    ensures Stands(v, Act(m, a))
    ensures GoesOn(w, v) && v.begun == w.begun + if a.Begin? then 1 else 0
  {
    match a
    case OtherThread(x) => v := SimulateOtherThread(m, x, w);
    case Begin(mode) => v := SimulateBegin(m, mode, w);
    case Perform(access) => v := SimulatePerform(m, access, w);
    case EndInstruction => v := SimulateEndInstruction(m, w);
    case ReceiveOne =>
      ActOnFabric(m, a);
      ReceivingIsDraining(m);
      v := w;
    case EndCheck => v := SimulateEndCheck(m, w);
    case FreezeMachine =>
      OneMoreAction(w.coarse, w.state, Ts7200.Freeze);
      v := w.(coarse := w.coarse + [Ts7200.Freeze], state := w.state.(frozen := true));
  }

  function Begun(actions: seq<MachineAction>): nat {
    if actions == [] then 0 else Begun(actions[..|actions| - 1]) + if actions[|actions| - 1].Begin? then 1 else 0
  }

  /** If the machine is between steps before action `i`, the first `n` actions of the coarse run lead to the
      same power state, lock, controllers and bus, in the same number of steps, and raise the same exceptions. */
  ghost predicate MatchedAt(
      setup: Setup, actions: seq<MachineAction>, i: nat, coarse: seq<Ts7200.SystemAction>, n: nat)
    requires i <= |actions|
  {
    && n <= |coarse| && IsRun(setup, actions[..i])
    && var m := RunMachine(setup, actions[..i]).value;
       BetweenSteps(m.pc) ==>
         && Ts7200.RunSystem(coarse[..n]) == Some(View(m))
         && Ts7200.RaisedIn(coarse[..n]) == m.raised
         && Ts7200.StepsIn(coarse[..n]) == Begun(actions[..i])
  }

  ghost predicate Matched(
      setup: Setup, actions: seq<MachineAction>, coarse: seq<Ts7200.SystemAction>, marks: seq<nat>)
  {
    && |marks| == |actions| + 1 && marks[|actions|] == |coarse|
    && (forall i, j :: 0 <= i < j <= |actions| ==> marks[i] <= marks[j])
    && (forall i: nat :: i <= |actions| ==> MatchedAt(setup, actions, i, coarse, marks[i]))
  }

  lemma {:induction false} StillMatched(
      setup: Setup, actions: seq<MachineAction>, last: nat, i: nat,
      coarse: seq<Ts7200.SystemAction>, longer: seq<Ts7200.SystemAction>, n: nat)
    requires i <= last <= |actions| && coarse <= longer
    requires MatchedAt(setup, actions[..last], i, coarse, n)
    ensures MatchedAt(setup, actions, i, longer, n)
  {
    assert actions[..last][..i] == actions[..i];
    assert coarse[..n] == longer[..n];
  }

  lemma {:induction false} NowMatched(setup: Setup, actions: seq<MachineAction>, w: Witness)
    requires IsRun(setup, actions) && Stands(w, RunMachine(setup, actions).value) && w.begun == Begun(actions)
    ensures MatchedAt(setup, actions, |actions|, w.coarse, |w.coarse|)
  {
    assert actions[..|actions|] == actions;
    assert w.coarse[..|w.coarse|] == w.coarse;
  }

  lemma {:induction false} OneMoreMark(
      setup: Setup, actions: seq<MachineAction>, n: nat, coarse: seq<Ts7200.SystemAction>, marks: seq<nat>, w: Witness)
    requires |actions| == n + 1 && Matched(setup, actions[..n], coarse, marks) && coarse <= w.coarse
    requires IsRun(setup, actions) && Stands(w, RunMachine(setup, actions).value) && w.begun == Begun(actions)
    ensures Matched(setup, actions, w.coarse, marks + [|w.coarse|])
  {
    forall i: nat | i <= n
      ensures MatchedAt(setup, actions, i, w.coarse, marks[i])
    {
      StillMatched(setup, actions, n, i, coarse, w.coarse, marks[i]);
    }
    NowMatched(setup, actions, w);
  }

  /** Every run of the machine is matched, at every moment between its steps, by a single run of the coarse
      main loop: the `i`-th moment by the first `marks[i]` coarse actions. */
  lemma {:induction false} MachineRefinesMainLoop(setup: Setup, actions: seq<MachineAction>)
    returns (w: Witness, marks: seq<nat>)
    requires IsRun(setup, actions)
    ensures Stands(w, RunMachine(setup, actions).value) && w.begun == Begun(actions)
    ensures Matched(setup, actions, w.coarse, marks)
  {
    if actions == [] {
      w, marks := Witness([], Ts7200.NewSystem(), Ts7200.NonBlocking, [], 0), [0];
      NowMatched(setup, actions, w);
    } else {
      var n := |actions| - 1;
      var v: Witness;
      v, marks := MachineRefinesMainLoop(setup, actions[..n]);
      w := SimulateStep(RunMachine(setup, actions[..n]).value, actions[n], v);
      OneMoreMark(setup, actions, n, v.coarse, marks, w);
      marks := marks + [|w.coarse|];
    }
  }
}
