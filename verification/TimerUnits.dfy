/** A timer together with its interrupter: the messages between them, and what both did since they were
    made. */
module TimerUnits {
  import opened Memory
  import opened Timer
  import opened TimerLaws
  import opened TimerSchedule

  /** What a timer did to its interrupt line. */
  datatype TimerEvent = Announced | Cleared

  datatype TimerUnit = TimerUnit(
    made: nat,
    regs: TimerRegs,
    inbox: seq<InterrupterMsg>, // sent to the interrupter, not received yet
    thread: Interrupter,
    log: seq<TimerEvent>,
    accesses: seq<Access>,      // all so far
    events: seq<Event>)         // all the interrupter has seen so far

  const IDLE := Interrupter(None, 0, 0)

  function NewUnit(bits: nat, made: nat): TimerUnit {
    TimerUnit(made, New(bits, made), [], IDLE, [], [], [])
  }

  predicate UnitCanTurn(u: TimerUnit, e: Event) {
    match e
    case Got(m) => u.inbox != [] && u.inbox[0] == m
    case TimedOut(_) => CanHappen(u.thread, e)
  }

  function UnitTurn(u: TimerUnit, e: Event): TimerUnit
    requires UnitCanTurn(u, e)
  {
    var v := u.(thread := Turn(u.thread, e), events := u.events + [e]);
    match e
    case Got(_) => v.(inbox := u.inbox[1..])
    case TimedOut(_) => v.(log := u.log + [Announced])
  }

  predicate UnitFits(u: TimerUnit, a: Access) {
    u.regs.bits <= 32 && Fits(u.regs, a.now)
  }

  /** Whether the access clears the interrupt, and what it sends to the interrupter. */
  predicate Clears(t: TimerRegs, a: Access)
    requires t.bits <= 32 && Fits(t, a.now)
  {
    match a
    case ReadAt(_, _) => false
    case WriteAt(offset, val, now, sendTime) => WriteTimer(t, offset, val, now, sendTime).clears
  }

  function MessagesIn(t: TimerRegs, a: Access): seq<InterrupterMsg>
    requires t.bits <= 32 && Fits(t, a.now)
  {
    match a
    case ReadAt(_, _) => []
    case WriteAt(offset, val, now, sendTime) => WriteTimer(t, offset, val, now, sendTime).messages
  }

  function UnitAfter(u: TimerUnit, a: Access): TimerUnit
    requires UnitFits(u, a)
  {
    u.(regs := After(u.regs, a),
       inbox := u.inbox + MessagesIn(u.regs, a),
       log := u.log + (if Clears(u.regs, a) then [Cleared] else []),
       accesses := u.accesses + [a])
  }

  /** A write of the clear register always clears, unless the timer is stuck. */
  lemma ClearsExactly(t: TimerRegs, a: Access)
    requires t.bits <= 32 && Fits(t, a.now)
    ensures Clears(t, a) <==> a.WriteAt? && a.offset == 0x0c && !Stuck(t)
  {
  }

  // ----- histories -----

  /** All messages sent by a run of accesses. */
  function MessagesOf(t: TimerRegs, run: seq<Access>): seq<InterrupterMsg>
    requires t.bits <= 32 && AllFit(t, run)
    decreases |run|
  {
    if run == [] then [] else MessagesIn(t, run[0]) + MessagesOf(After(t, run[0]), run[1..])
  }

  lemma {:induction false} RunInTurn(t: TimerRegs, first: seq<Access>, second: seq<Access>)
    requires t.bits <= 32 && AllFit(t, first)
    ensures AfterRun(t, first).bits == t.bits
    ensures AllFit(t, first + second) <==> AllFit(AfterRun(t, first), second)
    ensures AllFit(t, first + second) ==>
              && AfterRun(t, first + second) == AfterRun(AfterRun(t, first), second)
              && MessagesOf(t, first + second) == MessagesOf(t, first) + MessagesOf(AfterRun(t, first), second)
    decreases |first|
  {
    if first == [] {
      assert first + second == second;
    } else {
      assert (first + second)[0] == first[0];
      assert (first + second)[1..] == first[1..] + second;
      RunInTurn(After(t, first[0]), first[1..], second);
    }
  }

  lemma {:induction false} OneAccess(t: TimerRegs, a: Access)
    requires t.bits <= 32 && Fits(t, a.now)
    ensures AllFit(t, [a]) && AfterRun(t, [a]) == After(t, a) && MessagesOf(t, [a]) == MessagesIn(t, a)
  {
    assert [a][1..] == [];
  }

  /** The messages among the events of an interrupter. */
  function Received(events: seq<Event>): seq<InterrupterMsg> {
    if events == [] then []
    else (if events[0].Got? then [events[0].m] else []) + Received(events[1..])
  }

  lemma {:induction false} ReceivedInTurn(first: seq<Event>, second: seq<Event>)
    ensures Received(first + second) == Received(first) + Received(second)
    decreases |first|
  {
    if first == [] {
      assert first + second == second;
    } else {
      assert (first + second)[1..] == first[1..] + second;
      ReceivedInTurn(first[1..], second);
      var head := if first[0].Got? then [first[0].m] else [];
      assert head + (Received(first[1..]) + Received(second)) == head + Received(first[1..]) + Received(second);
    }
  }

  lemma {:induction false} EventsInTurn(i: Interrupter, first: seq<Event>, second: seq<Event>)
    ensures AllCanHappen(i, first + second) <==> AllCanHappen(i, first) && AllCanHappen(AfterEvents(i, first), second)
    ensures AllCanHappen(i, first + second) ==>
              AfterEvents(i, first + second) == AfterEvents(AfterEvents(i, first), second)
    decreases |first|
  {
    if first == [] {
      assert first + second == second;
    } else {
      assert (first + second)[0] == first[0];
      assert (first + second)[1..] == first[1..] + second;
      if CanHappen(i, first[0]) {
        EventsInTurn(Turn(i, first[0]), first[1..], second);
      }
    }
  }

  lemma {:induction false} OneEvent(i: Interrupter, e: Event)
    ensures AllCanHappen(i, [e]) <==> CanHappen(i, e)
    ensures CanHappen(i, e) ==> AfterEvents(i, [e]) == Turn(i, e)
    ensures Received([e]) == if e.Got? then [e.m] else []
  {
    assert [e][1..] == [];
  }

  // ----- what holds of a unit at all times -----

  /** Registers and interrupter are where their histories lead, and every message sent was received or is on
      the way, in order. */
  ghost predicate UnitInv(u: TimerUnit) {
    var start := New(u.regs.bits, u.made);
    && u.regs.bits <= 32
    && AllFit(start, u.accesses) && u.regs == AfterRun(start, u.accesses)
    && AllCanHappen(IDLE, u.events) && u.thread == AfterEvents(IDLE, u.events)
    && MessagesOf(start, u.accesses) == Received(u.events) + u.inbox
  }

  lemma AccessKeepsUnitInv(u: TimerUnit, a: Access)
    requires UnitInv(u) && UnitFits(u, a)
    ensures UnitInv(UnitAfter(u, a))
  {
    var start := New(u.regs.bits, u.made);
    OneAccess(u.regs, a);
    RunInTurn(start, u.accesses, [a]);
  }

  lemma TurnKeepsUnitInv(u: TimerUnit, e: Event)
    requires UnitInv(u) && UnitCanTurn(u, e)
    ensures UnitInv(UnitTurn(u, e))
  {
    OneEvent(u.thread, e);
    EventsInTurn(IDLE, u.events, [e]);
    ReceivedInTurn(u.events, [e]);
    if e.Got? {
      assert u.inbox == [u.inbox[0]] + u.inbox[1..];
    }
  }

  // ----- when interrupts are scheduled -----

  /** The last of the messages starts the interrupter. */
  predicate Armed(ms: seq<InterrupterMsg>) {
    ms != [] && ms[|ms| - 1].StartAt?
  }

  predicate ArmedAfter(armed: bool, ms: seq<InterrupterMsg>) {
    if ms == [] then armed else Armed(ms)
  }

  /** How an enabled timer was enabled: its mode at that moment, and whether a load value was set. */
  datatype Origin = Off | On(mode: Mode, loaded: bool)

  function OriginAfter(o: Origin, t: TimerRegs, a: Access): Origin
    requires t.bits <= 32 && Fits(t, a.now)
  {
    var u := After(t, a);
    if !u.enabled then Off else if !t.enabled then On(u.mode, u.loadval.Some?) else o
  }

  function OriginOf(o: Origin, t: TimerRegs, run: seq<Access>): Origin
    requires t.bits <= 32 && AllFit(t, run)
    decreases |run|
  {
    if run == [] then o else OriginOf(OriginAfter(o, t, run[0]), After(t, run[0]), run[1..])
  }

  predicate Consistent(t: TimerRegs, o: Origin, armed: bool) {
    && (o.On? <==> t.enabled)
    && (o.On? ==> o.loaded == t.loadval.Some?)
    && (armed <==> o == On(Periodic, true))
  }

  lemma {:induction false} OriginDecides(t: TimerRegs, o: Origin, armed: bool, run: seq<Access>)
    requires t.bits <= 32 && AllFit(t, run) && Consistent(t, o, armed)
    ensures Consistent(AfterRun(t, run), OriginOf(o, t, run), ArmedAfter(armed, MessagesOf(t, run)))
    decreases |run|
  {
    if run != [] {
      var a := run[0];
      var now := ArmedAfter(armed, MessagesIn(t, a));
      assert Consistent(After(t, a), OriginAfter(o, t, a), now);
      OriginDecides(After(t, a), OriginAfter(o, t, a), now, run[1..]);
    }
  }

  lemma {:induction false} ArmedIfReceived(i: Interrupter, events: seq<Event>)
    requires AllCanHappen(i, events)
    ensures AfterEvents(i, events).next.Some? <==> ArmedAfter(i.next.Some?, Received(events))
    decreases |events|
  {
    if events != [] {
      ArmedIfReceived(Turn(i, events[0]), events[1..]);
    }
  }

  function Receive(i: Interrupter, ms: seq<InterrupterMsg>): Interrupter
    decreases |ms|
  {
    if ms == [] then i else Receive(Turn(i, Got(ms[0])), ms[1..])
  }

  lemma {:induction false} ArmedOnceReceived(i: Interrupter, ms: seq<InterrupterMsg>)
    ensures Receive(i, ms).next.Some? <==> ArmedAfter(i.next.Some?, ms)
    decreases |ms|
  {
    if ms != [] {
      ArmedOnceReceived(Turn(i, Got(ms[0])), ms[1..]);
    }
  }

  /** The interrupter has a deadline, once it has received what is on the way to it. */
  predicate Scheduled(u: TimerUnit) {
    Receive(u.thread, u.inbox).next.Some?
  }

  function OriginNow(u: TimerUnit): Origin
    requires u.regs.bits <= 32 && AllFit(New(u.regs.bits, u.made), u.accesses)
  {
    OriginOf(Off, New(u.regs.bits, u.made), u.accesses)
  }

  /** Interrupts are scheduled exactly when the timer is enabled and was, when it was enabled, periodic and
      given a load value. A later change of mode or clock does not reach the interrupter. */
  lemma {:induction false} ScheduledExactly(u: TimerUnit)
    requires UnitInv(u)
    ensures Scheduled(u) <==> OriginNow(u) == On(Periodic, true)
    ensures OriginNow(u).On? <==> u.regs.enabled
  {
    var start := New(u.regs.bits, u.made);
    var ms := MessagesOf(start, u.accesses);
    OriginDecides(start, Off, false, u.accesses);
    ArmedIfReceived(IDLE, u.events);
    ArmedOnceReceived(u.thread, u.inbox);
    assert u.inbox != [] ==> ms[|ms| - 1] == u.inbox[|u.inbox| - 1];
    assert u.inbox == [] ==> ms == Received(u.events);
  }

  /** The counter is enabled, periodic, and has a value to reload. */
  predicate CountsPeriods(t: TimerRegs) {
    t.enabled && t.mode == Periodic && t.loadval.Some?
  }

  /** So interrupts are scheduled just when the counter counts periods, exactly if the mode of an enabled,
      loaded timer is the one it was enabled with. */
  lemma {:induction false} ScheduledWhenCountingExactly(u: TimerUnit)
    requires UnitInv(u)
    ensures (Scheduled(u) <==> CountsPeriods(u.regs))
       <==> (u.regs.enabled && u.regs.loadval.Some? ==> OriginNow(u).On? && OriginNow(u).mode == u.regs.mode)
  {
    ScheduledExactly(u);
    OriginDecides(New(u.regs.bits, u.made), Off, false, u.accesses);
  }

  /** And it need not be: load five, enabled free-running by 0x80, switched to periodic by 0xc0, a timer
      counts periods and never sent a message. */
  lemma {:induction false} CountsWithoutInterrupts(bits: nat, start: nat)
    requires 3 <= bits <= 32
    ensures var first := [WriteAt(0x00, 5, start, start), WriteAt(0x08, 0x80, start, start)];
            var run := first + [WriteAt(0x08, 0xc0, start, start)];
            && AllFit(New(bits, start), run)
            && CountsPeriods(AfterRun(New(bits, start), run))
            && MessagesOf(New(bits, start), run) == []
  {
    var t := New(bits, start);
    var first := [WriteAt(0x00, 5, start, start), WriteAt(0x08, 0x80, start, start)];
    var last := WriteAt(0x08, 0xc0, start, start);
    ControlBits();
    LoadThenEnable(bits, start, 5, 0x80);
    NoMessagesYet(t, start);
    SwitchedToPeriodic(AfterRun(t, first));
    OneAccess(AfterRun(t, first), last);
    RunInTurn(t, first, [last]);
  }

  lemma {:induction false} NoMessagesYet(t: TimerRegs, start: nat)
    requires t.bits <= 32 && t == New(t.bits, start)
    requires AllFit(t, [WriteAt(0x00, 5, start, start), WriteAt(0x08, 0x80, start, start)])
    ensures MessagesOf(t, [WriteAt(0x00, 5, start, start), WriteAt(0x08, 0x80, start, start)]) == []
  {
    var load := WriteAt(0x00, 5, start, start);
    var enable := WriteAt(0x08, 0x80, start, start);
    ControlBits();
    OneAccess(t, load);
    OneAccess(After(t, load), enable);
    RunInTurn(t, [load], [enable]);
    assert [load] + [enable] == [load, enable];
  }

  lemma SwitchedToPeriodic(t: TimerRegs)
    requires t.bits <= 32 && t.enabled && t.mode == FreeRunning && t.loadval.Some? && t.microticks < MEGA
    ensures var a := WriteAt(0x08, 0xc0, t.lastTime, t.lastTime);
            Fits(t, t.lastTime) && CountsPeriods(After(t, a)) && MessagesIn(t, a) == []
  {
    ControlBits();
  }

  // ----- the schedule of a unit -----

  /** The events since the interrupter last received a message: timeouts only. */
  function SinceMessage(events: seq<Event>): seq<Event> {
    if events == [] || events[|events| - 1].Got? then []
    else SinceMessage(events[..|events| - 1]) + [events[|events| - 1]]
  }

  lemma {:induction false} AtLastMessage(events: seq<Event>) returns (before: seq<Event>)
    requires Received(events) != []
    ensures events == before + [Got(Received(events)[|Received(events)| - 1])] + SinceMessage(events)
    ensures forall k :: 0 <= k < |SinceMessage(events)| ==> SinceMessage(events)[k].TimedOut?
  {
    var n := |events| - 1;
    var last := events[n];
    assert events == events[..n] + [last];
    ReceivedInTurn(events[..n], [last]);
    assert [last][1..] == [];
    if last.Got? {
      before := events[..n];
    } else {
      assert Received(events) == Received(events[..n]);
      before := AtLastMessage(events[..n]);
    }
  }

  lemma {:induction false} NeutralRunSendsNothing(t: TimerRegs, run: seq<Access>)
    requires Valid(t) && t.enabled && AllFit(t, run) && AllNeutral(t, run)
    ensures MessagesOf(t, run) == []
    decreases |run|
  {
    if run != [] {
      NeutralAccessUpdates(t, run[0]);
      AccessKeepsValid(t, run[0]);
      NeutralRunSendsNothing(After(t, run[0]), run[1..]);
    }
  }

  /** The unit was last enabled, periodic and with a load value of at least one, by the write at the given
      time that came after the accesses `before`; since then only the accesses of `run` were made, which
      leave enable, mode and clock alone and find ticks that fit in 32 bits. */
  ghost predicate StartedBy(u: TimerUnit, before: seq<Access>, val: word, at: nat, sendTime: nat, run: seq<Access>) {
    var start := New(u.regs.bits, u.made);
    var enable := WriteAt(0x08, val, at, sendTime);
    && u.regs.bits <= 32
    && u.accesses == before + [enable] + run
    && AllFit(start, before)
    && AfterRun(start, before).bits <= 32
    && var t := AfterRun(start, before);
       && Fits(t, at) && IsPeriodicEdge(t, val) && t.loadval.Some? && t.loadval.value > 0
       && var edge := After(t, enable);
          AllFit(edge, run) && TicksFit(edge, run) && AllNeutral(edge, run)
  }

  ghost function EdgeOf(u: TimerUnit, before: seq<Access>, val: word, at: nat, sendTime: nat): TimerRegs
    requires u.regs.bits <= 32 && AllFit(New(u.regs.bits, u.made), before)
    requires AfterRun(New(u.regs.bits, u.made), before).bits <= 32
    requires Fits(AfterRun(New(u.regs.bits, u.made), before), at)
  {
    After(AfterRun(New(u.regs.bits, u.made), before), WriteAt(0x08, val, at, sendTime))
  }

  /** The schedule of a unit, over its own history from power-on: at any moment after the interrupter received
      the message of the enabling write, what a read of the value register shows and the timeouts announced
      since that message agree as `CounterAgrees` and `InterruptsAgree` say. */
  lemma {:induction false} UnitSchedule(
      u: TimerUnit, before: seq<Access>, val: word, at: nat, sendTime: nat, run: seq<Access>, now: nat)
    requires UnitInv(u) && StartedBy(u, before, val, at, sendTime, run)
    requires u.inbox == [] && at <= sendTime <= now
    requires TimeoutsUntil(SinceMessage(u.events), now)
    requires Fits(u.regs, now) && Elapsed(u.regs, now) / MEGA < TWO_TO_THE_32
    ensures var edge := EdgeOf(u, before, val, at, sendTime);
            && IsEdge(edge) && edge.lastTime == at
            && CounterAgrees(edge, now, ReadTimer(u.regs, 0x04, now).result)
            && InterruptsAgree(edge, sendTime, now, |SinceMessage(u.events)|, CaughtUp(u.thread, now))
  {
    var start := New(u.regs.bits, u.made);
    var t := AfterRun(start, before);
    var edge := EdgeOf(u, before, val, at, sendTime);
    EveryRunIsValid(u.regs.bits, u.made, before);
    EdgeStartsBoth(t, val, at, sendTime);
    RunThroughEdge(start, before, WriteAt(0x08, val, at, sendTime), run);
    assert MessagesOf(start, u.accesses) == Received(u.events);
    var i := SinceLastMessage(u.events, StartMessage(edge, sendTime));
    ScheduleAgreesWithCounter(edge, sendTime, run, now, i, SinceMessage(u.events));
    InterruptsAfterEdge(edge, sendTime, now, i, SinceMessage(u.events));
  }

  /** What the history says once it goes through the enabling write: the registers are those after the run
      from the edge, and the message of the edge was the last one sent. */
  lemma {:induction false} RunThroughEdge(start: TimerRegs, before: seq<Access>, enable: Access, run: seq<Access>)
    requires start.bits <= 32 && AllFit(start, before)
    requires AfterRun(start, before).bits <= 32 && Fits(AfterRun(start, before), enable.now)
    requires var edge := After(AfterRun(start, before), enable);
             Valid(edge) && edge.enabled && AllFit(edge, run) && AllNeutral(edge, run)
    ensures AllFit(start, before + [enable] + run)
    ensures AfterRun(start, before + [enable] + run) == AfterRun(After(AfterRun(start, before), enable), run)
    ensures MessagesOf(start, before + [enable] + run)
         == MessagesOf(start, before) + MessagesIn(AfterRun(start, before), enable)
  {
    var t := AfterRun(start, before);
    OneAccess(t, enable);
    RunInTurn(start, before, [enable]);
    RunInTurn(start, before + [enable], run);
    NeutralRunSendsNothing(After(t, enable), run);
    var all := MessagesOf(start, before + [enable]);
    assert all + [] == all;
  }

  /** The interrupter as it was when it received its last message `m`, and what it has done since. */
  lemma {:induction false} SinceLastMessage(events: seq<Event>, m: InterrupterMsg) returns (i: Interrupter)
    requires AllCanHappen(IDLE, events)
    requires Received(events) != [] && Received(events)[|Received(events)| - 1] == m
    ensures AllCanHappen(Turn(i, Got(m)), SinceMessage(events))
    ensures AfterEvents(IDLE, events) == AfterEvents(Turn(i, Got(m)), SinceMessage(events))
    ensures forall k :: 0 <= k < |SinceMessage(events)| ==> SinceMessage(events)[k].TimedOut?
  {
    var earlier := AtLastMessage(events);
    var since := SinceMessage(events);
    EventsInTurn(IDLE, earlier + [Got(m)], since);
    EventsInTurn(IDLE, earlier, [Got(m)]);
    i := AfterEvents(IDLE, earlier);
    OneEvent(i, Got(m));
  }
}
