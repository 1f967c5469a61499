/** What the processor sees of the interrupt fabric after any run, in terms of what was written to each device,
    of the bytes that went through the UARTs, and of the timeouts announced. */
module FabricHistory {
  import opened Fabric
  import opened Interrupts
  import opened Memory
  import opened UartProtocol
  import opened UartState
  import opened VicManager
  import UartHistory
  import VicHistory

  /** The steps of one UART in a run of the fabric. */
  function UartSchedule(schedule: seq<FabricAction>, k: nat): seq<Action> {
    if schedule == [] then []
    else
      var n := |schedule| - 1;
      var a := schedule[n];
      UartSchedule(schedule[..n], k) + if a.UartStep? && a.k == k then [a.a] else []
  }

  lemma {:induction false} UartFollowsItsSchedule(setup: Setup, schedule: seq<FabricAction>, k: nat)
    requires RunFabric(setup, schedule).Some? && k < |RunFabric(setup, schedule).value.uarts|
    ensures Run(UartSchedule(schedule, k)) == Some(RunFabric(setup, schedule).value.uarts[k])
  {
    if schedule != [] {
      var n := |schedule| - 1;
      var a := schedule[n];
      var before := RunFabric(setup, schedule[..n]).value;
      NextKeepsShape(before, a);
      UartFollowsItsSchedule(setup, schedule[..n], k);
      var steps := UartSchedule(schedule[..n], k);
      if a.UartStep? && a.k == k {
        assert (steps + [a.a])[..|steps|] == steps;
      } else {
        assert steps + [] == steps;
      }
    }
  }

  /** What happened to the controllers in a run of the fabric: register writes, and the messages received. */
  function VicOps(setup: Setup, schedule: seq<FabricAction>): seq<Operation>
    requires RunFabric(setup, schedule).Some?
  {
    if schedule == [] then []
    else
      var n := |schedule| - 1;
      VicOps(setup, schedule[..n]) + OpsOf(RunFabric(setup, schedule[..n]).value, schedule[n])
  }

  function OpsOf(f: Fabric, a: FabricAction): seq<Operation>
    requires FabricEnabled(f, a)
  {
    match a
    case Drain => [BusMessage(f.bus[0])]
    case VicWrite(offset, val) => [RegisterWrite(offset, val)]
    case _ => []
  }

  lemma {:induction false} ControllersFollowTheirHistory(setup: Setup, schedule: seq<FabricAction>)
    requires RunFabric(setup, schedule).Some?
    ensures RunFabric(setup, schedule).value.vic == AfterHistory(VicOps(setup, schedule))
  {
    if schedule != [] {
      var n := |schedule| - 1;
      ControllersFollowTheirHistory(setup, schedule[..n]);
      var ops := VicOps(setup, schedule[..n]);
      var latest := OpsOf(RunFabric(setup, schedule[..n]).value, schedule[n]);
      if latest == [] {
        assert ops + latest == ops;
      } else {
        assert (ops + latest)[..|ops|] == ops;
      }
    }
  }

  /** Where the lines of the UARTs and timers are wired to. */
  lemma LinesAreWiredTo()
    ensures WiredTo(SourceOf(0, RxLine)) == (0, 23) && WiredTo(SourceOf(0, TxLine)) == (0, 24)
    ensures WiredTo(SourceOf(1, RxLine)) == (0, 25) && WiredTo(SourceOf(1, TxLine)) == (0, 26)
    ensures WiredTo(SourceOf(2, RxLine)) == (0, 27) && WiredTo(SourceOf(2, TxLine)) == (0, 28)
    ensures WiredTo(SourceOf(0, ComboLine)) == (0x10000, 20)
    ensures WiredTo(SourceOf(1, ComboLine)) == (0x10000, 22)
    ensures WiredTo(SourceOf(2, ComboLine)) == (0x10000, 23)
    ensures WiredTo(TimerLine(0)) == (0, 4) && WiredTo(TimerLine(1)) == (0, 5) && WiredTo(TimerLine(2)) == (0x10000, 19)
  {
  }

  /** The first two timers are 16 bits wide, the third 32. */
  lemma {:induction false} TimerWidths(setup: Setup, schedule: seq<FabricAction>)
    requires RunFabric(setup, schedule).Some?
    ensures var timers := RunFabric(setup, schedule).value.timers;
            timers[0].regs.bits == 16 && timers[1].regs.bits == 16 && timers[2].regs.bits == 32
  {
    if schedule != [] {
      TimerWidths(setup, schedule[..|schedule| - 1]);
    }
  }

  /** The three status registers show a line where it is wired to: raw if it is up or raised by the software
      writes of the history; as IRQ or FIQ if those writes enabled it, by how they routed it. */
  ghost predicate StatusShowsAt(p: VicPair, ops: seq<Operation>, line: Interrupt, up: bool)
    requires ValidPair(p)
  {
    var base, i := WiredTo(line).0, WiredTo(line).1;
    var raised := up || VicHistory.RaisedBy(ops, base, i);
    var enabled := VicHistory.EnabledBy(ops, base, i);
    var toFiq := VicHistory.ToFiqBy(ops, base, i);
    && (VicHistory.ReadsBit(p, base + 0x08, i) <==> raised)
    && (VicHistory.ReadsBit(p, base, i) <==> raised && enabled && !toFiq)
    && (VicHistory.ReadsBit(p, base + 0x04, i) <==> raised && enabled && toFiq)
  }

  lemma {:induction false} StatusAfter(ops: seq<Operation>, line: Interrupt)
    ensures StatusShowsAt(AfterHistory(ops), ops, line, LineUp(AfterHistory(ops), line))
  {
    VicHistory.StatusOverHistory(ops, line);
    VicHistory.LineOverHistory(ops, line);
  }

  /** With the bus drained and the UART's lock free, the status registers show each of its lines as what was
      written to that UART and the bytes that went through it make due, masked and routed by what was
      written to the controllers. */
  lemma {:induction false} UartStatusOverRun(setup: Setup, schedule: seq<FabricAction>, k: nat, line: Line)
    requires RunFabric(setup, schedule).Some?
    requires var f := RunFabric(setup, schedule).value;
             f.bus == [] && k < |f.uarts| && f.uarts[k].lock == Free
    ensures var f := RunFabric(setup, schedule).value;
            var due := UartHistory.LineDue(UartSchedule(schedule, k), f.uarts[k], line);
            StatusShowsAt(f.vic, VicOps(setup, schedule), SourceOf(k, line), due)
  {
    var f := RunFabric(setup, schedule).value;
    PendingMessagesGiveTheLevel(f, k, line);
    UartFollowsItsSchedule(setup, schedule, k);
    UartHistory.FlagsOverRun(UartSchedule(schedule, k), line);
    ControllersFollowTheirHistory(setup, schedule);
    StatusAfter(VicOps(setup, schedule), SourceOf(k, line));
  }

  /** And each timer line as up when a timeout was announced after the last write of its clear register. */
  lemma {:induction false} TimerStatusOverRun(setup: Setup, schedule: seq<FabricAction>, t: nat)
    requires RunFabric(setup, schedule).Some? && RunFabric(setup, schedule).value.bus == [] && t < 3
    ensures var f := RunFabric(setup, schedule).value;
            StatusShowsAt(f.vic, VicOps(setup, schedule), TimerLine(t), AnnouncedSinceClear(f.timers[t].log))
  {
    PendingMessagesGiveTheTimeout(RunFabric(setup, schedule).value, t);
    ControllersFollowTheirHistory(setup, schedule);
    StatusAfter(VicOps(setup, schedule), TimerLine(t));
  }
}
