/** What the registers of a timer read after any run of accesses from power-on, in terms of the accesses. */
module TimerValues {
  import opened Bits
  import opened Memory
  import opened Timer
  import opened TimerLaws
  import opened TimerUnits

  // ----- load and control -----

  predicate IsControlWrite(a: Access) {
    a.WriteAt? && a.offset == 0x08
  }

  predicate IsLoadWrite(a: Access) {
    a.WriteAt? && a.offset == 0x00
  }

  /** The control word last written, zero if there was none. */
  function LastControl(run: seq<Access>): word {
    if run == [] then 0
    else
      var n := |run| - 1;
      if IsControlWrite(run[n]) then run[n].val else LastControl(run[..n])
  }

  /** The load value last written while the timer was disabled, in the width of the counter, unless a control
      write disabled it after that. */
  function LastLoad(run: seq<Access>, bits: nat): Option<nat> {
    if run == [] then None
    else
      var n := |run| - 1;
      var a := run[n];
      if IsLoadWrite(a) && !Bit(LastControl(run[..n]), 7) then Some(a.val % Pow2(bits))
      else if IsControlWrite(a) && !Bit(a.val, 7) then None
      else LastLoad(run[..n], bits)
  }

  /** The registers that only writes change are as the accesses say. */
  predicate AsWritten(t: TimerRegs, run: seq<Access>) {
    && t.enabled == Bit(LastControl(run), 7)
    && t.mode == (if Bit(LastControl(run), 6) then Periodic else FreeRunning)
    && t.clksel == (if Bit(LastControl(run), 3) then Khz508 else Khz2)
    && t.loadval == LastLoad(run, t.bits)
  }

  lemma {:induction false} WrittenOverRun(bits: nat, start: nat, run: seq<Access>)
    requires bits <= 32 && AllFit(New(bits, start), run)
    requires !Stuck(AfterRun(New(bits, start), run))
    ensures AsWritten(AfterRun(New(bits, start), run), run) && AfterRun(New(bits, start), run).bits == bits
  {
    var t := New(bits, start);
    if run == [] {
      BitOfZero(3);
      BitOfZero(6);
      BitOfZero(7);
    } else {
      var n := |run| - 1;
      assert run == run[..n] + [run[n]];
      PrefixFits(t, run, n);
      RunInTurn(t, run[..n], [run[n]]);
      OneAccess(AfterRun(t, run[..n]), run[n]);
      StepAsWritten(AfterRun(t, run[..n]), run[n]);
      WrittenOverRun(bits, start, run[..n]);
      AccessAsWritten(AfterRun(t, run[..n]), run, n);
    }
  }

  /** A timer that is not stuck after an access was not stuck before. */
  lemma StepAsWritten(t: TimerRegs, a: Access)
    requires t.bits <= 32 && Fits(t, a.now) && !Stuck(After(t, a))
    ensures !Stuck(t)
  {
  }

  lemma AccessAsWritten(t: TimerRegs, run: seq<Access>, n: nat)
    requires |run| == n + 1 && t.bits <= 32 && Fits(t, run[n].now) && !Stuck(t) && AsWritten(t, run[..n])
    ensures AsWritten(After(t, run[n]), run) && After(t, run[n]).bits == t.bits
  {
    if IsLoadWrite(run[n]) {
      AndLowMask(run[n].val, t.bits);
    }
  }

  /** As long as the timer is not stuck, a read of the control register gives the three bits of the last control
      word, and a read of the load register the load value last written with effect since the timer was last
      disabled, or the error if there was none. */
  lemma {:induction false} ControlAndLoadRead(bits: nat, start: nat, run: seq<Access>, later: nat)
    requires bits <= 32 && AllFit(New(bits, start), run)
    requires var t := AfterRun(New(bits, start), run); !Stuck(t) && t.bits <= 32 && Fits(t, later)
    ensures var t := AfterRun(New(bits, start), run);
            var control := LastControl(run);
            ReadTimer(t, 0x08, later).result
              == Ok(0x8 * Digit(Bit(control, 3)) + 0x40 * Digit(Bit(control, 6)) + 0x80 * Digit(Bit(control, 7)))
    ensures var t := AfterRun(New(bits, start), run);
            ReadTimer(t, 0x00, later).result
              == match LastLoad(run, bits)
                 case Some(v) => Ok(v)
                 case None => Err(ContractViolation(Error, None))
  {
    WrittenOverRun(bits, start, run);
  }

  // ----- value -----

  /** No control write changes the counter: it leaves the value that a read at the same moment would give, and
      the part of a tick that went by, which only enabling a disabled timer sets back. */
  lemma {:induction false} ControlWriteKeepsCounter(t: TimerRegs, val: word, now: nat, sendTime: nat)
    requires t.bits <= 32 && Fits(t, now) && !Stuck(t)
    ensures var u := After(t, WriteAt(0x08, val, now, sendTime));
            && ReadTimer(t, 0x04, now).result == Ok(u.val)
            && u.lastTime == now
            && u.microticks == if !t.enabled && Bit(val, 7) then 0 else ReadTimer(t, 0x04, now).regs.microticks
  {
  }

  /** A load write, if it has an effect, sets the counter. */
  lemma LoadWriteSetsCounter(t: TimerRegs, val: word, now: nat, sendTime: nat)
    requires t.bits <= 32 && Fits(t, now) && !Stuck(t)
    ensures var u := After(t, WriteAt(0x00, val, now, sendTime));
            ReadTimer(t, 0x04, now).result.Ok? &&
            u.val == if t.enabled then ReadTimer(t, 0x04, now).result.value else val % Pow2(t.bits)
  {
    AndLowMask(val, t.bits);
  }

  predicate MayMoveCounter(a: Access) {
    IsLoadWrite(a) || (IsControlWrite(a) && Bit(a.val, 7))
  }

  lemma {:induction false} DisabledKeepsCounter(t: TimerRegs, run: seq<Access>)
    requires t.bits <= 32 && !t.enabled && AllFit(t, run)
    requires forall k :: 0 <= k < |run| ==> !MayMoveCounter(run[k])
    ensures AfterRun(t, run).val == t.val && !AfterRun(t, run).enabled && AfterRun(t, run).bits == t.bits
    decreases |run|
  {
    if run != [] {
      assert !MayMoveCounter(run[0]);
      DisabledKeepsCounter(After(t, run[0]), run[1..]);
    }
  }

  /** A timer that is disabled after any run from power-on keeps showing, at every later time, what a read at
      that moment would have shown, until a load write or a write that enables it. */
  lemma {:induction false} StoppedValueStays(
      bits: nat, start: nat, before: seq<Access>, control: word, stop: nat, sendTime: nat,
      run: seq<Access>, later: nat)
    requires bits <= 32 && AllFit(New(bits, start), before) && !Bit(control, 7)
    requires var t := AfterRun(New(bits, start), before); !Stuck(t) && t.bits <= 32 && Fits(t, stop)
    requires var u := After(AfterRun(New(bits, start), before), WriteAt(0x08, control, stop, sendTime));
             && AllFit(u, run)
             && AfterRun(u, run).bits <= 32 && Fits(AfterRun(u, run), later)
    requires forall k :: 0 <= k < |run| ==> !MayMoveCounter(run[k])
    ensures var t := AfterRun(New(bits, start), before);
            var u := After(t, WriteAt(0x08, control, stop, sendTime));
            ReadTimer(AfterRun(u, run), 0x04, later).result == ReadTimer(t, 0x04, stop).result
  {
    var t := AfterRun(New(bits, start), before);
    ControlWriteKeepsCounter(t, control, stop, sendTime);
    DisabledKeepsCounter(After(t, WriteAt(0x08, control, stop, sendTime)), run);
  }

  /** So a free-running timer that is stopped keeps showing the ticks counted until then. */
  lemma {:induction false} StoppedShowsTheTicks(
      t: TimerRegs, counting: seq<Access>, control: word, stop: nat, sendTime: nat, run: seq<Access>, later: nat)
    requires Valid(t) && t.enabled && t.mode == FreeRunning && AllFit(t, counting) && AllNeutral(t, counting)
    requires !Bit(control, 7)
    requires AfterRun(t, counting).bits <= 32 && Fits(AfterRun(t, counting), stop)
    requires var u := After(AfterRun(t, counting), WriteAt(0x08, control, stop, sendTime));
             && AllFit(u, run)
             && AfterRun(u, run).bits <= 32 && Fits(AfterRun(u, run), later)
    requires forall k :: 0 <= k < |run| ==> !MayMoveCounter(run[k])
    ensures t.lastTime <= stop
    ensures var u := After(AfterRun(t, counting), WriteAt(0x08, control, stop, sendTime));
            ReadTimer(AfterRun(u, run), 0x04, later).result
              == Ok((t.val - Elapsed(t, stop) / MEGA) % Pow2(t.bits))
  {
    FreeRunningReads(t, counting, stop);
    NeutralRunKeepsMode(t, counting);
    ControlWriteKeepsCounter(AfterRun(t, counting), control, stop, sendTime);
    DisabledKeepsCounter(After(AfterRun(t, counting), WriteAt(0x08, control, stop, sendTime)), run);
  }

  /** And a loaded timer shows the load value, in the width of the counter, until it is enabled or loaded again. */
  lemma {:induction false} LoadedValueStays(t: TimerRegs, load: word, at: nat, run: seq<Access>, later: nat)
    requires t.bits <= 32 && !t.enabled && Fits(t, at)
    requires var u := After(t, WriteAt(0x00, load, at, at));
             && AllFit(u, run)
             && AfterRun(u, run).bits <= 32 && Fits(AfterRun(u, run), later)
    requires forall k :: 0 <= k < |run| ==> !MayMoveCounter(run[k])
    ensures var u := After(t, WriteAt(0x00, load, at, at));
            ReadTimer(AfterRun(u, run), 0x04, later).result == Ok(load % Pow2(t.bits))
  {
    LoadWriteSetsCounter(t, load, at, at);
    DisabledKeepsCounter(After(t, WriteAt(0x00, load, at, at)), run);
  }

  /** A periodic one keeps showing the tick-by-tick counter, or the load value where a reload brought that counter
      to zero. */
  lemma {:induction false} StoppedShowsTheCounter(
      t: TimerRegs, counting: seq<Access>, control: word, stop: nat, sendTime: nat, run: seq<Access>, later: nat)
    requires Valid(t) && t.enabled && t.mode == Periodic && AllFit(t, counting) && AllNeutral(t, counting)
    requires t.loadval.Some? && t.loadval.value > 0 && t.val <= t.loadval.value
    requires !Bit(control, 7)
    requires AfterRun(t, counting).bits <= 32 && Fits(AfterRun(t, counting), stop)
    requires TicksFit(t, counting) && Elapsed(AfterRun(t, counting), stop) / MEGA < TWO_TO_THE_32
    requires var u := After(AfterRun(t, counting), WriteAt(0x08, control, stop, sendTime));
             && AllFit(u, run)
             && AfterRun(u, run).bits <= 32 && Fits(AfterRun(u, run), later)
    requires forall k :: 0 <= k < |run| ==> !MayMoveCounter(run[k])
    ensures t.lastTime <= stop
    ensures var u := After(AfterRun(t, counting), WriteAt(0x08, control, stop, sendTime));
            var counter := TicksDown(t.val, Elapsed(t, stop) / MEGA, t.loadval.value);
            var shown := ReadTimer(AfterRun(u, run), 0x04, later).result;
            shown == Ok(counter) || (counter == 0 && shown == Ok(t.loadval.value))
  {
    PeriodicReads(t, counting, stop);
    NeutralRunKeepsMode(t, counting);
    ControlWriteKeepsCounter(AfterRun(t, counting), control, stop, sendTime);
    DisabledKeepsCounter(After(AfterRun(t, counting), WriteAt(0x08, control, stop, sendTime)), run);
  }

  // ----- from the writes to the value -----

  /** Load a disabled timer, whatever it did before, and enable it. */
  function Started(t: TimerRegs, load: word, loadTime: nat, control: word, start: nat): TimerRegs
    requires t.bits <= 32 && !t.enabled && Fits(t, loadTime) && loadTime <= start
  {
    After(After(t, WriteAt(0x00, load, loadTime, loadTime)), WriteAt(0x08, control, start, start))
  }

  lemma {:induction false} StartedIs(t: TimerRegs, load: word, loadTime: nat, control: word, start: nat)
    requires Valid(t) && !t.enabled && Fits(t, loadTime) && loadTime <= start && Bit(control, 7)
    ensures var u := Started(t, load, loadTime, control, start);
            && Valid(u) && u.enabled && u.bits == t.bits && u.lastTime == start && u.microticks == 0
            && u.val == load % Pow2(t.bits) && u.loadval == Some(u.val)
            && u.mode == (if Bit(control, 6) then Periodic else FreeRunning)
            && u.clksel == (if Bit(control, 3) then Khz508 else Khz2)
  {
    AndLowMask(load, t.bits);
  }

  /** The ticks since then. */
  function TicksSince(control: word, start: nat, now: nat): nat
    requires start <= now
  {
    (now - start) * (if Bit(control, 3) then 508 else 2) / 1_000_000
  }

  lemma {:induction false} TicksSinceIs(u: TimerRegs, control: word, now: nat)
    requires u.lastTime <= now && u.microticks == 0 && u.clksel == (if Bit(control, 3) then Khz508 else Khz2)
    ensures Elapsed(u, now) / MEGA == TicksSince(control, u.lastTime, now)
  {
    assert Elapsed(u, now) == (now - u.lastTime) * (if Bit(control, 3) then 508 else 2);
  }

  /** In free-running mode it then shows the load value minus 508 or 2 for every thousand microseconds since,
      in the width of the counter. */
  lemma {:induction false} FreeRunningFromLoad(
      t: TimerRegs, load: word, loadTime: nat, control: word, start: nat, run: seq<Access>, now: nat)
    requires Valid(t) && !t.enabled && Fits(t, loadTime) && loadTime <= start && Bit(control, 7) && !Bit(control, 6)
    requires var u := Started(t, load, loadTime, control, start);
             && AllFit(u, run) && AllNeutral(u, run)
             && AfterRun(u, run).bits <= 32 && Fits(AfterRun(u, run), now)
    ensures now >= start
    ensures var u := Started(t, load, loadTime, control, start);
            ReadTimer(AfterRun(u, run), 0x04, now).result
              == Ok((load % Pow2(t.bits) - TicksSince(control, start, now)) % Pow2(t.bits))
  {
    StartedIs(t, load, loadTime, control, start);
    var u := Started(t, load, loadTime, control, start);
    FreeRunningReads(u, run, now);
    TicksSinceIs(u, control, now);
  }

  /** In periodic mode, with a load value that is not zero in that width, it shows the counter that goes down by
      one each tick and reloads after zero; that zero may show as the load value. */
  lemma {:induction false} PeriodicFromLoad(
      t: TimerRegs, load: word, loadTime: nat, control: word, start: nat, run: seq<Access>, now: nat)
    requires Valid(t) && !t.enabled && Fits(t, loadTime) && loadTime <= start && Bit(control, 7) && Bit(control, 6)
    requires load % Pow2(t.bits) > 0
    requires var u := Started(t, load, loadTime, control, start);
             && AllFit(u, run) && AllNeutral(u, run)
             && AfterRun(u, run).bits <= 32 && Fits(AfterRun(u, run), now)
             && TicksFit(u, run) && Elapsed(AfterRun(u, run), now) / MEGA < TWO_TO_THE_32
    ensures now >= start
    ensures var u := Started(t, load, loadTime, control, start);
            var counter := TicksDown(load % Pow2(t.bits), TicksSince(control, start, now), load % Pow2(t.bits));
            var shown := ReadTimer(AfterRun(u, run), 0x04, now).result;
            shown == Ok(counter) || (counter == 0 && shown == Ok(load % Pow2(t.bits)))
  {
    StartedIs(t, load, loadTime, control, start);
    var u := Started(t, load, loadTime, control, start);
    PeriodicReads(u, run, now);
    TicksSinceIs(u, control, now);
  }

  /** A zero load value makes the counter zero at the first access, and it stays there. */
  lemma {:induction false} ZeroLoadShowsZero(t: TimerRegs, run: seq<Access>, now: nat)
    requires Valid(t) && t.enabled && t.mode == Periodic && t.loadval == Some(0)
    requires AllFit(t, run) && AllNeutral(t, run)
    requires AfterRun(t, run).bits <= 32 && Fits(AfterRun(t, run), now)
    ensures ReadTimer(AfterRun(t, run), 0x04, now).result == Ok(0)
  {
    NeutralRunKeepsMode(t, run);
  }

  // ----- failures -----

  /** Which accesses fail, and how. */
  lemma ReadFailsExactly(t: TimerRegs, offset: nat, now: nat)
    requires t.bits <= 32 && Fits(t, now)
    ensures var result := ReadTimer(t, offset, now).result;
            && (result == Err(ContractViolation(Error, None)) <==> Stuck(t) || (offset == 0x00 && t.loadval == None))
            && (result == Err(InvalidAccess) <==> !Stuck(t) && offset == 0x0c)
            && (result == Err(Unexpected) <==> !Stuck(t) && offset !in {0x00, 0x04, 0x08, 0x0c})
            && (result.Err? ==> result.error in {ContractViolation(Error, None), InvalidAccess, Unexpected})
  {
  }

  lemma WriteFailsExactly(t: TimerRegs, offset: nat, val: word, now: nat, sendTime: nat)
    requires t.bits <= 32 && Fits(t, now)
    ensures var result := WriteTimer(t, offset, val, now, sendTime).result;
            && (result == Err(ContractViolation(Error, None))
                <==> || Stuck(t)
                     || (offset == 0x00 && t.enabled)
                     || (offset == 0x08 && IsPeriodicEdge(t, val) && t.loadval == None))
            && (result == Err(InvalidAccess) <==> !Stuck(t) && offset == 0x04)
            && (result == Err(Unexpected) <==> !Stuck(t) && offset !in {0x00, 0x04, 0x08, 0x0c})
            && (result.Err? ==> result.error in {ContractViolation(Error, None), InvalidAccess, Unexpected})
  {
  }
}
