/** The thread that raises a timer's interrupts keeps its own schedule, and never looks at the
    counter. This is how the two agree. */
module TimerSchedule {
  import opened Arithmetic
  import opened Interrupts
  import opened Memory
  import opened Timer
  import opened TimerLaws

  // ----- the interrupter thread -----

  /** What one turn of its loop sees: a message, or the deadline passing at a time. */
  datatype Event = Got(m: InterrupterMsg) | TimedOut(at: nat)

  datatype Interrupter = Interrupter(next: Option<nat>, period: nat, sent: nat)

  /** Without a deadline the thread waits so long that it is taken to wait forever. */
  predicate CanHappen(i: Interrupter, e: Event) {
    e.TimedOut? ==> i.next.Some? && i.next.value <= e.at
  }

  function Turn(i: Interrupter, e: Event): Interrupter
    requires CanHappen(i, e)
  {
    match e
    case Got(StartAt(next, period)) => i.(next := Some(next), period := period)
    case Got(Stop) => i.(next := None)
    case TimedOut(_) => i.(next := Some(i.next.value + i.period), sent := i.sent + 1)
  }

  predicate AllCanHappen(i: Interrupter, events: seq<Event>)
    decreases |events|
  {
    events != [] ==> CanHappen(i, events[0]) && AllCanHappen(Turn(i, events[0]), events[1..])
  }

  function AfterEvents(i: Interrupter, events: seq<Event>): Interrupter
    requires AllCanHappen(i, events)
    decreases |events|
  {
    if events == [] then i else AfterEvents(Turn(i, events[0]), events[1..])
  }

  /** The loop of the thread over the events it sees; each timeout raises the line on the bus. */
  method InterrupterLoop(events: seq<Event>, start: Interrupter, line: Interrupt, bus: Channel<Message>)
    returns (i: Interrupter)
    requires AllCanHappen(start, events)
    modifies bus
    ensures i == AfterEvents(start, events)
    ensures i.sent >= start.sent
    ensures bus.queue == old(bus.queue) + seq(i.sent - start.sent, _ => Message(line, true))
  {
    i := start;
    var k := 0;
    while k < |events|
      invariant k <= |events|
      invariant AllCanHappen(i, events[k..])
      invariant AfterEvents(i, events[k..]) == AfterEvents(start, events)
      invariant i.sent >= start.sent
      invariant bus.queue == old(bus.queue) + seq(i.sent - start.sent, _ => Message(line, true))
    {
      assert events[k..][1..] == events[k + 1..];
      match events[k] {
        case Got(StartAt(next, period)) => i := i.(next := Some(next), period := period);
        case Got(Stop) => i := i.(next := None);
        case TimedOut(_) =>
          bus.Send(Message(line, true));
          i := i.(next := Some(i.next.value + i.period), sent := i.sent + 1);
      }
      k := k + 1;
    }
  }

  /** Only timeouts, none later than `now`. */
  predicate TimeoutsUntil(events: seq<Event>, now: nat) {
    forall k :: 0 <= k < |events| ==> events[k].TimedOut? && events[k].at <= now
  }

  lemma {:induction false} DeadlineAfterTimeouts(i: Interrupter, events: seq<Event>, now: nat)
    requires i.next.Some? && AllCanHappen(i, events) && TimeoutsUntil(events, now)
    ensures var j := AfterEvents(i, events);
            && j.period == i.period
            && j.sent == i.sent + |events|
            && j.next == Some(i.next.value + i.period * |events|)
            && (events != [] ==> j.next.value - i.period <= now)
    decreases |events|
  {
    if events != [] {
      var u := Turn(i, events[0]);
      DeadlineAfterTimeouts(u, events[1..], now);
      MulDistributes(i.period, 1, |events| - 1);
    }
  }

  /** The interrupter has dealt with every deadline up to `now`. */
  predicate CaughtUp(j: Interrupter, now: nat) {
    j.next.Some? && j.next.value > now
  }

  /** From a start message that sets the first deadline one period after `base`, the thread has at any
      time sent at most as many interrupts as full periods have passed since `base`; once it has caught
      up, exactly as many. */
  lemma {:induction false} SentIsPeriodsPassed(i: Interrupter, base: nat, period: nat, events: seq<Event>, now: nat)
    requires period > 0 && base <= now
    requires var u := Turn(i, Got(StartAt(base + period, period)));
             AllCanHappen(u, events) && TimeoutsUntil(events, now)
    ensures var j := AfterEvents(Turn(i, Got(StartAt(base + period, period))), events);
            && j.sent - i.sent <= (now - base) / period
            && (CaughtUp(j, now) ==> j.sent - i.sent == (now - base) / period)
  {
    var u := Turn(i, Got(StartAt(base + period, period)));
    var n := |events|;
    DeadlineAfterTimeouts(u, events, now);
    MulDistributes(period, n, 1);
    QuotientAtLeast(now - base, period, n);
    QuotientAtLeast(now - base, period, n + 1);
  }

  // ----- the wraps of the counter -----

  /** How often the tick-by-tick counter reached zero in `n` ticks. */
  function Wraps(v: nat, n: nat, load: nat): nat
    requires load > 0
  {
    if n == 0 then 0 else Wraps(v, n - 1, load) + if TicksDown(v, n, load) == 0 then 1 else 0
  }

  lemma {:induction false} ZeroAtMultiples(n: nat, load: nat)
    requires n > 0 && load > 0
    ensures TicksDown(load, n, load) == 0 <==> n % load == 0
  {
    TicksDownIs(load, n, load);
    RemainderIs(load, load, 1, 0);
    if n < load {
      RemainderIs(n, load, 0, n);
    } else if n > load {
      SameRemainderExactly(load, n, load);
    }
  }

  /** From the load value, the counter reaches zero once every `load` ticks. */
  lemma {:induction false} WrapsFromLoad(n: nat, load: nat)
    requires load > 0
    ensures Wraps(load, n, load) == n / load
  {
    if n == 0 {
      QuotientIsZero(0, load);
    } else {
      WrapsFromLoad(n - 1, load);
      ZeroAtMultiples(n, load);
      QuotientStep(n, load);
    }
  }

  /** Ticks of an enabled timer `elapsed` nanoseconds after its remainder was zero. */
  function TicksIn(elapsed: nat, c: Clock): nat {
    elapsed * Khz(c) / MEGA
  }

  lemma PeriodIsPositive(load: nat, c: Clock)
    requires load > 0
    ensures Period(load, c) > 0
  {
    QuotientAtLeast(load * MEGA, Khz(c), 1);
  }

  /** At 2 kHz the periods that pass are the wraps. */
  lemma PeriodsAreWrapsAt2Khz(elapsed: nat, load: nat)
    requires load > 0
    ensures Period(load, Khz2) == 500_000 * load
    ensures elapsed / Period(load, Khz2) == TicksIn(elapsed, Khz2) / load
  {
    assert TicksIn(elapsed, Khz2) == elapsed / 500_000;
    DivideTwice(elapsed, 500_000, load);
  }

  /** At 508 kHz the period is rounded down, so at least as many periods pass as wraps. */
  lemma PeriodsCoverWrapsAt508Khz(elapsed: nat, load: nat)
    requires load > 0
    ensures Period(load, Khz508) > 0
    ensures elapsed / Period(load, Khz508) >= TicksIn(elapsed, Khz508) / load
  {
    PeriodIsPositive(load, Khz508);
    var ticks := TicksIn(elapsed, Khz508);
    var wraps := ticks / load;
    var period := Period(load, Khz508);
    QuotientAtLeast(ticks, load, wraps);
    assert 508 * period <= load * MEGA;
    MulMonotone(wraps, 508 * period, load * MEGA);
    MulAssociates(wraps, 508, period);
    MulAssociates(wraps, load, MEGA);
    assert wraps * load * MEGA <= ticks * MEGA;
    assert wraps * 508 * period == 508 * (period * wraps);
    QuotientAtLeast(elapsed, period, wraps);
  }

  // ----- the k-th interrupt and the k-th wrap -----

  /** The time, since the remainder was zero, at which the counter completes its `k`-th wrap. */
  function WrapTime(k: nat, load: nat, c: Clock): nat {
    (k * load * MEGA + Khz(c) - 1) / Khz(c)
  }

  /** It is the first time at which enough ticks have passed. */
  lemma WrapTimeIsFirst(k: nat, load: nat, c: Clock, elapsed: nat)
    ensures TicksIn(elapsed, c) >= k * load <==> elapsed >= WrapTime(k, load, c)
  {
    var need := k * load * MEGA;
    QuotientAtLeast(elapsed * Khz(c), MEGA, k * load);
    assert TicksIn(elapsed, c) >= k * load <==> need <= elapsed * Khz(c);
  }

  /** The `k`-th deadline never comes after the `k`-th wrap, nor more than `k` nanoseconds before it;
      at 2 kHz they coincide. */
  lemma DeadlineLeadsWrap(k: nat, load: nat, c: Clock)
    ensures k * Period(load, c) <= WrapTime(k, load, c) <= k * Period(load, c) + k
    ensures c == Khz2 ==> WrapTime(k, load, c) == k * Period(load, c)
  {
    var n := load * MEGA;
    var p := Period(load, c);
    var r := n % Khz(c);
    MulAssociates(k, load, MEGA);
    assert n == Khz(c) * p + r;
    MulDistributes(k, Khz(c) * p, r);
    assert k * (Khz(c) * p) == Khz(c) * (k * p);
    MulMonotone(k, 0, r);
    MulMonotone(k, r, Khz(c) - 1);
    assert k * (Khz(c) - 1) == k * Khz(c) - k;
    assert k * load * MEGA == Khz(c) * (k * p) + k * r;
    if c == Khz2 {
      assert r == 0;
    }
  }

  lemma {:induction false} EventsComeAfterDeadlines(i: Interrupter, events: seq<Event>, now: nat, k: nat)
    requires i.next.Some? && AllCanHappen(i, events) && TimeoutsUntil(events, now) && k < |events|
    ensures events[k].at >= i.next.value + i.period * k
    decreases |events|
  {
    if k > 0 {
      EventsComeAfterDeadlines(Turn(i, events[0]), events[1..], now, k - 1);
      MulDistributes(i.period, 1, k - 1);
    }
  }

  lemma {:induction false} EventsComeAfterPeriods(
      i: Interrupter, base: nat, period: nat, events: seq<Event>, now: nat, k: nat)
    requires var u := Turn(i, Got(StartAt(base + period, period)));
             AllCanHappen(u, events) && TimeoutsUntil(events, now)
    requires 1 <= k <= |events|
    ensures events[k - 1].at >= base + k * period
  {
    EventsComeAfterDeadlines(Turn(i, Got(StartAt(base + period, period))), events, now, k - 1);
    MulDistributes(period, 1, k - 1);
  }

  /** Periods that passed in `elapsed` nanoseconds, of which `sent` were noticed, against the wraps of a
      counter that started `since` nanoseconds ago. */
  lemma {:induction false} PeriodsAgainstWraps(load: nat, c: Clock, elapsed: nat, sent: nat, since: nat)
    requires load > 0 && Period(load, c) > 0 && sent <= elapsed / Period(load, c)
    ensures sent <= Wraps(load, TicksIn(elapsed + sent, c), load)
    ensures var wraps := Wraps(load, TicksIn(since, c), load);
            var period := Period(load, c);
            sent == elapsed / period ==>
              && sent >= Wraps(load, TicksIn(elapsed, c), load)
              && (sent >= wraps <==> period * wraps <= elapsed)
              && (sent <= wraps <==> elapsed < period * (wraps + 1))
              && (sent <= wraps <==> WrapTime(sent, load, c) <= since)
  {
    var wraps := Wraps(load, TicksIn(since, c), load);
    PeriodsSentAreCovered(load, c, elapsed, sent);
    PeriodsCoverWraps(load, c, elapsed);
    QuotientAtLeast(elapsed, Period(load, c), wraps);
    QuotientAtLeast(elapsed, Period(load, c), wraps + 1);
    WrapsFromLoad(TicksIn(since, c), load);
    QuotientAtLeast(TicksIn(since, c), load, sent);
    WrapTimeIsFirst(sent, load, c, since);
  }

  /** As many periods as have passed, so many wraps follow within a nanosecond for each. */
  lemma {:induction false} PeriodsSentAreCovered(load: nat, c: Clock, elapsed: nat, sent: nat)
    requires load > 0 && Period(load, c) > 0 && sent <= elapsed / Period(load, c)
    ensures sent <= Wraps(load, TicksIn(elapsed + sent, c), load)
  {
    QuotientAtLeast(elapsed, Period(load, c), sent);
    DeadlineLeadsWrap(sent, load, c);
    WrapTimeIsFirst(sent, load, c, elapsed + sent);
    WrapsFromLoad(TicksIn(elapsed + sent, c), load);
    QuotientAtLeast(TicksIn(elapsed + sent, c), load, sent);
  }

  lemma {:induction false} PeriodsCoverWraps(load: nat, c: Clock, elapsed: nat)
    requires load > 0 && Period(load, c) > 0
    ensures elapsed / Period(load, c) >= Wraps(load, TicksIn(elapsed, c), load)
  {
    WrapsFromLoad(TicksIn(elapsed, c), load);
    if c == Khz2 {
      PeriodsAreWrapsAt2Khz(elapsed, load);
    } else {
      PeriodsCoverWrapsAt508Khz(elapsed, load);
    }
  }

  // ----- the two together -----

  function StartMessage(edge: TimerRegs, sendTime: nat): InterrupterMsg
    requires edge.loadval.Some?
  {
    var period := Period(edge.loadval.value, edge.clksel);
    StartAt(sendTime + period, period)
  }

  /** The timer has just been enabled, periodic, at a load value of at least one. */
  predicate IsEdge(edge: TimerRegs) {
    && edge.enabled && edge.mode == Periodic && edge.microticks == 0
    && edge.loadval.Some? && edge.loadval.value > 0 && edge.val == edge.loadval.value
  }

  /** A write that enables a periodic timer with a load value starts the counter and, through its message,
      the interrupter. */
  lemma EdgeStartsBoth(t: TimerRegs, val: word, now: nat, sendTime: nat)
    requires Valid(t) && Fits(t, now) && IsPeriodicEdge(t, val) && t.loadval.Some? && t.loadval.value > 0
    ensures var edge := After(t, WriteAt(0x08, val, now, sendTime));
            && Valid(edge) && edge.lastTime == now
            && IsEdge(edge)
            && WriteTimer(t, 0x08, val, now, sendTime).messages == [StartMessage(edge, sendTime)]
  {
    PeriodicEdge(t, val, now, sendTime);
    AccessKeepsValid(t, WriteAt(0x08, val, now, sendTime));
  }

  /** The interrupter once it has received the message of the edge and gone through some timeouts. */
  function Notified(edge: TimerRegs, sendTime: nat, i: Interrupter, events: seq<Event>): Interrupter
    requires edge.loadval.Some? && AllCanHappen(Turn(i, Got(StartMessage(edge, sendTime))), events)
  {
    AfterEvents(Turn(i, Got(StartMessage(edge, sendTime))), events)
  }

  /** The value register `now` shows the tick-by-tick counter started at the load value, a zero possibly as
      the load value. */
  predicate CounterAgrees(edge: TimerRegs, now: nat, shown: MemResult<word>)
    requires IsEdge(edge) && edge.lastTime <= now
  {
    var load := edge.loadval.value;
    var counter := TicksDown(load, TicksIn(now - edge.lastTime, edge.clksel), load);
    shown == Ok(counter) || (counter == 0 && shown == Ok(load))
  }

  /** The interrupts sent up to `now`, against the wraps of the counter at the same moment.

      Caught up or not, the interrupter has sent no more of them than there are wraps in the time since its
      message and one nanosecond for each. Once it has caught up,
      - it has sent at least the wraps that fit in the time since its message;
      - it has not sent fewer than the wraps of the counter exactly when the deadline of the last of these
        has passed;
      - it has not sent more exactly when the next deadline has not passed, which is also exactly when the
        counter has had the time for as many wraps as were sent;
      - so the two numbers are equal exactly when `now` is between those two deadlines; and at 2 kHz exactly
        when the current period of the counter is at least as old as the interrupter is behind, which is the
        time between the two readings of the clock in the enabling write. */
  predicate InterruptsAgree(edge: TimerRegs, sendTime: nat, now: nat, sent: int, caughtUp: bool)
    requires IsEdge(edge) && edge.lastTime <= sendTime <= now
  {
    var load, c := edge.loadval.value, edge.clksel;
    var period := Period(load, c);
    var wraps := Wraps(load, TicksIn(now - edge.lastTime, c), load);
    && period > 0
    && 0 <= sent <= Wraps(load, TicksIn(now - sendTime + sent, c), load)
    && (caughtUp ==>
          && sent >= Wraps(load, TicksIn(now - sendTime, c), load)
          && (sent >= wraps <==> sendTime + period * wraps <= now)
          && (sent <= wraps <==> now < sendTime + period * (wraps + 1))
          && (sent <= wraps <==> edge.lastTime + WrapTime(sent, load, c) <= now)
          && (sent == wraps <==> sendTime + period * wraps <= now < sendTime + period * (wraps + 1))
          && (c == Khz2 ==> (sent == wraps <==> (now - edge.lastTime) % period >= sendTime - edge.lastTime)))
  }

  /** Counter and interrupts at one moment, from the edge on, however the timer was accessed since. */
  lemma {:induction false} ScheduleAgreesWithCounter(
      edge: TimerRegs, sendTime: nat, run: seq<Access>, now: nat, i: Interrupter, events: seq<Event>)
    requires Valid(edge) && IsEdge(edge) && edge.lastTime <= sendTime <= now
    requires AllFit(edge, run) && TicksFit(edge, run) && AllNeutral(edge, run)
    requires AfterRun(edge, run).bits <= 32 && Fits(AfterRun(edge, run), now)
    requires Elapsed(AfterRun(edge, run), now) / MEGA < TWO_TO_THE_32
    requires AllCanHappen(Turn(i, Got(StartMessage(edge, sendTime))), events) && TimeoutsUntil(events, now)
    ensures CounterAgrees(edge, now, ReadTimer(AfterRun(edge, run), 0x04, now).result)
    ensures var j := Notified(edge, sendTime, i, events);
            InterruptsAgree(edge, sendTime, now, j.sent - i.sent, CaughtUp(j, now))
  {
    PeriodicReads(edge, run, now);
    InterruptsAfterEdge(edge, sendTime, now, i, events);
  }

  lemma {:induction false} InterruptsAfterEdge(
      edge: TimerRegs, sendTime: nat, now: nat, i: Interrupter, events: seq<Event>)
    requires IsEdge(edge) && edge.lastTime <= sendTime <= now
    requires AllCanHappen(Turn(i, Got(StartMessage(edge, sendTime))), events) && TimeoutsUntil(events, now)
    ensures var j := Notified(edge, sendTime, i, events);
            && j.sent - i.sent == |events|
            && InterruptsAgree(edge, sendTime, now, j.sent - i.sent, CaughtUp(j, now))
  {
    var period := Period(edge.loadval.value, edge.clksel);
    PeriodIsPositive(edge.loadval.value, edge.clksel);
    SentIsPeriodsPassed(i, sendTime, period, events, now);
    DeadlineAfterTimeouts(Turn(i, Got(StartMessage(edge, sendTime))), events, now);
    PeriodsPassedAgree(edge, sendTime, now, |events|, CaughtUp(Notified(edge, sendTime, i, events), now));
  }

  lemma {:induction false} PeriodsPassedAgree(edge: TimerRegs, sendTime: nat, now: nat, sent: nat, caughtUp: bool)
    requires IsEdge(edge) && edge.lastTime <= sendTime <= now
    requires Period(edge.loadval.value, edge.clksel) > 0
    requires sent <= (now - sendTime) / Period(edge.loadval.value, edge.clksel)
    requires caughtUp ==> sent == (now - sendTime) / Period(edge.loadval.value, edge.clksel)
    ensures InterruptsAgree(edge, sendTime, now, sent, caughtUp)
  {
    PeriodsAgainstWraps(edge.loadval.value, edge.clksel, now - sendTime, sent, now - edge.lastTime);
    if edge.clksel == Khz2 {
      EqualAt2Khz(edge.loadval.value, sendTime - edge.lastTime, now - edge.lastTime);
    }
  }

  lemma {:induction false} EqualAt2Khz(load: nat, behind: nat, since: nat)
    requires load > 0 && behind <= since && Period(load, Khz2) > 0
    ensures (since - behind) / Period(load, Khz2) == Wraps(load, TicksIn(since, Khz2), load)
       <==> since % Period(load, Khz2) >= behind
  {
    WrapsFromLoad(TicksIn(since, Khz2), load);
    PeriodsAreWrapsAt2Khz(since, load);
    QuotientUnchanged(since, behind, Period(load, Khz2));
  }

  /** The `k`-th interrupt, counting from one, is sent no earlier than its deadline; and the deadline
      follows the `k`-th wrap by what the interrupter is behind, less at most `k` nanoseconds, and less
      nothing at 2 kHz. */
  lemma {:induction false} KthInterruptFollowsKthWrap(
      edge: TimerRegs, sendTime: nat, now: nat, i: Interrupter, events: seq<Event>, k: nat)
    requires edge.loadval.Some? && edge.loadval.value > 0 && edge.lastTime <= sendTime <= now
    requires AllCanHappen(Turn(i, Got(StartMessage(edge, sendTime))), events) && TimeoutsUntil(events, now)
    requires 1 <= k <= |events|
    ensures var behind := sendTime - edge.lastTime;
            var wrap := edge.lastTime + WrapTime(k, edge.loadval.value, edge.clksel);
            var deadline := sendTime + k * Period(edge.loadval.value, edge.clksel);
            && events[k - 1].at >= deadline
            && wrap + behind - k <= deadline <= wrap + behind
            && (edge.clksel == Khz2 ==> deadline == wrap + behind)
  {
    var load, c := edge.loadval.value, edge.clksel;
    EventsComeAfterPeriods(i, sendTime, Period(load, c), events, now, k);
    DeadlineLeadsWrap(k, load, c);
  }

  /** The interrupter can lag: with load one at 2 kHz, its message 10 ns after the edge, the counter has
      wrapped 500005 ns after the edge and a caught-up interrupter has sent nothing. */
  lemma {:induction false} InterrupterCanLag(edge: TimerRegs, i: Interrupter)
    requires IsEdge(edge) && edge.loadval.value == 1 && edge.clksel == Khz2
    ensures var j := Notified(edge, edge.lastTime + 10, i, []);
            && CaughtUp(j, edge.lastTime + 500_005) && j.sent == i.sent
            && Wraps(1, TicksIn(500_005, Khz2), 1) == 1
  {
    WrapsFromLoad(TicksIn(500_005, Khz2), 1);
  }

  /** And at 508 kHz it can lead: 1968 ns after an edge with load one it has sent an interrupt, if its
      message was based on the time of the edge, and the counter has not wrapped. */
  lemma {:induction false} InterrupterCanLead(edge: TimerRegs, i: Interrupter)
    requires IsEdge(edge) && edge.loadval.value == 1 && edge.clksel == Khz508
    ensures var u := Turn(i, Got(StartMessage(edge, edge.lastTime)));
            var timeout := TimedOut(edge.lastTime + 1968);
            && CanHappen(u, timeout) && CaughtUp(Turn(u, timeout), edge.lastTime + 1968)
            && Turn(u, timeout).sent == i.sent + 1
            && Wraps(1, TicksIn(1968, Khz508), 1) == 0
  {
    WrapsFromLoad(TicksIn(1968, Khz508), 1);
  }
}
