/** What the lazily updated timer promises: the counter does not depend on how often it is looked at,
    and it agrees with the separately scheduled interrupts. */
module TimerLaws {
  import opened Arithmetic
  import opened Bits
  import opened Memory
  import opened Timer

  // ----- runs of accesses -----

  /** A register access at a time; a write also has the time its message is based on. */
  datatype Access =
    | ReadAt(offset: nat, now: nat)
    | WriteAt(offset: nat, val: word, now: nat, sendTime: nat)

  function After(t: TimerRegs, a: Access): (u: TimerRegs)
    requires t.bits <= 32 && Fits(t, a.now)
    ensures u.bits == t.bits && u.lastTime == a.now
  {
    match a
    case ReadAt(offset, now) => ReadTimer(t, offset, now).regs
    case WriteAt(offset, val, now, sendTime) => WriteTimer(t, offset, val, now, sendTime).regs
  }

  /** Each access of the run finds a clock that fits. */
  predicate AllFit(t: TimerRegs, run: seq<Access>)
    requires t.bits <= 32
    decreases |run|
  {
    run != [] ==> Fits(t, run[0].now) && AllFit(After(t, run[0]), run[1..])
  }

  function AfterRun(t: TimerRegs, run: seq<Access>): TimerRegs
    requires t.bits <= 32 && AllFit(t, run)
    decreases |run|
  {
    if run == [] then t else AfterRun(After(t, run[0]), run[1..])
  }

  // ----- invariant -----

  /** What holds of the registers at all times. */
  ghost predicate Valid(t: TimerRegs) {
    && t.bits <= 32
    && t.microticks < MEGA
    && t.val < Pow2(t.bits)
    && (t.loadval.Some? ==> t.loadval.value < Pow2(t.bits))
    && (t.loadval.Some? && !t.enabled ==> t.val == t.loadval.value)
  }

  lemma UpdateKeepsValid(t: TimerRegs, now: nat)
    requires Valid(t) && Fits(t, now)
    ensures Valid(UpdateRegs(t, now).regs)
    ensures UpdateRegs(t, now).regs.enabled == t.enabled && UpdateRegs(t, now).regs.loadval == t.loadval
  {
    if t.enabled && t.mode == FreeRunning {
      AndLowMask((t.val - Elapsed(t, now) / MEGA % TWO_TO_THE_32) % TWO_TO_THE_32, t.bits);
    }
  }

  lemma AccessKeepsValid(t: TimerRegs, a: Access)
    requires Valid(t) && Fits(t, a.now)
    ensures Valid(After(t, a))
  {
    UpdateKeepsValid(t, a.now);
    if a.WriteAt? {
      AndLowMask(a.val, t.bits);
    }
  }

  lemma {:induction false} RunKeepsValid(t: TimerRegs, run: seq<Access>)
    requires Valid(t) && AllFit(t, run)
    ensures Valid(AfterRun(t, run))
    decreases |run|
  {
    if run != [] {
      AccessKeepsValid(t, run[0]);
      RunKeepsValid(After(t, run[0]), run[1..]);
    }
  }

  /** A timer starts out valid, so its registers are valid after every run of accesses. */
  lemma {:induction false} EveryRunIsValid(bits: nat, start: nat, run: seq<Access>)
    requires bits <= 32 && AllFit(New(bits, start), run)
    ensures Valid(AfterRun(New(bits, start), run))
  {
    RunKeepsValid(New(bits, start), run);
  }

  /** Counting periodically without a load value. */
  predicate Stuck(t: TimerRegs) {
    t.enabled && t.mode == Periodic && t.loadval == None
  }

  /** The control register reads back the three bits it has, unless the timer is stuck. */
  lemma {:induction false} ControlReadsBack(t: TimerRegs, val: word, now: nat, sendTime: nat, later: nat)
    requires Valid(t) && Fits(t, now)
    requires Fits(After(t, WriteAt(0x08, val, now, sendTime)), later)
    ensures var u := After(t, WriteAt(0x08, val, now, sendTime));
            var control := 0x8 * Digit(Bit(val, 3)) + 0x40 * Digit(Bit(val, 6)) + 0x80 * Digit(Bit(val, 7));
            ReadTimer(u, 0x08, later).result == if Stuck(u) then Err(ContractViolation(Error, None)) else Ok(control)
  {
    UpdateKeepsValid(t, now);
  }

  /** The access fails and is not seen outside: nothing is sent to the interrupter or the bus. */
  predicate Fails(t: TimerRegs, a: Access)
    requires t.bits <= 32 && Fits(t, a.now)
  {
    match a
    case ReadAt(offset, now) => ReadTimer(t, offset, now).result == Err(ContractViolation(Error, None))
    case WriteAt(offset, val, now, sendTime) =>
      var e := WriteTimer(t, offset, val, now, sendTime);
      e.result == Err(ContractViolation(Error, None)) && e.messages == [] && !e.clears
  }

  /** A stuck timer stays stuck over every run, and every access of it fails: even the control write that
      would disable it, and the load write that would give it a value. */
  lemma {:induction false} StuckForever(t: TimerRegs, run: seq<Access>, a: Access)
    requires t.bits <= 32 && Stuck(t) && AllFit(t, run)
    requires AfterRun(t, run).bits <= 32 && Fits(AfterRun(t, run), a.now)
    ensures Stuck(AfterRun(t, run)) && Fails(AfterRun(t, run), a)
    decreases |run|
  {
    if run != [] {
      assert Stuck(After(t, run[0]));
      StuckForever(After(t, run[0]), run[1..], a);
    }
  }

  /** The control write that asks for periodic counting although no load value is set. */
  predicate Sticks(t: TimerRegs, a: Access) {
    a.WriteAt? && a.offset == 0x08 && Bit(a.val, 7) && Bit(a.val, 6) && t.loadval == None
  }

  /** Access `k` of the run is such a write, in the state the run has reached by then. */
  ghost predicate SticksAt(t: TimerRegs, run: seq<Access>, k: int)
    requires t.bits <= 32 && AllFit(t, run)
  {
    0 <= k < |run| && (PrefixFits(t, run, k); Sticks(AfterRun(t, run[..k]), run[k]))
  }

  lemma {:induction false} PrefixFits(t: TimerRegs, run: seq<Access>, k: nat)
    requires t.bits <= 32 && AllFit(t, run) && k <= |run|
    ensures AllFit(t, run[..k])
    decreases |run|
  {
    if k > 0 {
      assert run[..k][1..] == run[1..][..k - 1];
      PrefixFits(After(t, run[0]), run[1..], k - 1);
    }
  }

  /** After any run, a timer is stuck exactly when it was so before or some access of the run was such a
      write. The write itself may well succeed. */
  lemma {:induction false} StuckExactly(t: TimerRegs, run: seq<Access>)
    requires t.bits <= 32 && AllFit(t, run)
    ensures Stuck(AfterRun(t, run)) <==> Stuck(t) || exists k :: SticksAt(t, run, k)
    decreases |run|
  {
    if run != [] {
      var u := After(t, run[0]);
      StuckExactly(u, run[1..]);
      assert Stuck(u) <==> Stuck(t) || Sticks(t, run[0]);
      assert run[..0] == [];
      if Sticks(t, run[0]) {
        assert SticksAt(t, run, 0);
      }
      forall k | 0 < k < |run|
        ensures SticksAt(t, run, k) <==> SticksAt(u, run[1..], k - 1)
      {
        PrefixFits(t, run, k);
        assert run[..k][1..] == run[1..][..k - 1];
      }
      if k :| SticksAt(u, run[1..], k) {
        assert SticksAt(t, run, k + 1);
      }
      if k :| SticksAt(t, run, k) {
        assert k == 0 || SticksAt(u, run[1..], k - 1);
      }
    }
  }

  /** It does happen to every timer from power-on that is enabled without a load value and then switched to
      periodic counting. Both writes succeed. */
  lemma {:induction false} TimerSticks(bits: nat, start: nat, free: word, periodic: word, now: nat, later: nat)
    requires bits <= 32 && start <= now <= later && (later - now) * 508 < TWO_TO_THE_64
    requires Bit(free, 7) && !Bit(free, 6) && Bit(periodic, 7) && Bit(periodic, 6)
    ensures var t := New(bits, start);
            var first := WriteAt(0x08, free, now, now);
            var second := WriteAt(0x08, periodic, later, later);
            && AllFit(t, [first, second])
            && WriteTimer(t, 0x08, free, now, now).result == Ok(())
            && WriteTimer(After(t, first), 0x08, periodic, later, later).result == Ok(())
            && Stuck(AfterRun(t, [first, second]))
  {
    var t := New(bits, start);
    var u := After(t, WriteAt(0x08, free, now, now));
    assert u.enabled && u.mode == FreeRunning && u.microticks == 0;
    assert Khz(u.clksel) <= 508;
    Arithmetic.MulMonotone(later - now, Khz(u.clksel), 508);
    assert Fits(u, later);
    TwoAccesses(t, WriteAt(0x08, free, now, now), WriteAt(0x08, periodic, later, later));
  }

  /** The two words that do it. */
  lemma {:induction false} TimerCanStick(bits: nat, start: nat, now: nat)
    requires bits <= 32 && start <= now
    ensures var run := [WriteAt(0x08, 0x80, now, now), WriteAt(0x08, 0xc0, now, now)];
            AllFit(New(bits, start), run) && Stuck(AfterRun(New(bits, start), run))
  {
    ControlBits();
    TimerSticks(bits, start, 0x80, 0xc0, now, now);
  }

  lemma {:induction false} TwoAccesses(t: TimerRegs, a: Access, b: Access)
    requires t.bits <= 32 && Fits(t, a.now) && Fits(After(t, a), b.now)
    ensures AllFit(t, [a, b]) && AfterRun(t, [a, b]) == After(After(t, a), b)
  {
    assert [a] + [b] == [a, b];
    assert [a][1..] == [];
    OneMoreAccess(t, [a], b);
  }

  lemma ControlBits()
    ensures Bit(0x80, 7) && !Bit(0x80, 6) && !Bit(0x80, 3)
    ensures Bit(0xc0, 7) && Bit(0xc0, 6) && !Bit(0xc0, 3)
    ensures Bit(0xc8, 7) && Bit(0xc8, 6) && Bit(0xc8, 3)
  {
  }

  /** A timer from power-on, given a load value and enabled at once: it starts at the load value, in the
      width of the counter. */
  lemma {:induction false} LoadThenEnable(bits: nat, start: nat, load: word, control: word)
    requires bits <= 32 && Bit(control, 7)
    ensures var run := [WriteAt(0x00, load, start, start), WriteAt(0x08, control, start, start)];
            var value := load % Pow2(bits);
            && AllFit(New(bits, start), run)
            && AfterRun(New(bits, start), run)
            == TimerRegs(Some(value), value, true, if Bit(control, 6) then Periodic else FreeRunning,
                         if Bit(control, 3) then Khz508 else Khz2, bits, start, 0)
  {
    AndLowMask(load, bits);
    TwoAccesses(New(bits, start), WriteAt(0x00, load, start, start), WriteAt(0x08, control, start, start));
  }

  /** A control write that switches a disabled timer to enabled periodic counting. */
  predicate IsPeriodicEdge(t: TimerRegs, val: word) {
    !t.enabled && Bit(val, 7) && Bit(val, 6)
  }

  /** Such a write succeeds exactly when a load value was written since the timer was last disabled.
      The counter then starts at that very load value with no part of a tick gone by, and the message
      to the interrupter is based on the same load value. */
  lemma PeriodicEdge(t: TimerRegs, val: word, now: nat, sendTime: nat)
    requires Valid(t) && Fits(t, now) && IsPeriodicEdge(t, val)
    ensures var e := WriteTimer(t, 0x08, val, now, sendTime);
            && (e.result.Ok? <==> t.loadval.Some?)
            && e.regs.enabled && e.regs.mode == Periodic && e.regs.microticks == 0 && e.regs.lastTime == now
            && (e.result.Ok? ==>
                  && e.regs.loadval == t.loadval
                  && e.regs.val == t.loadval.value
                  && var period := Period(t.loadval.value, e.regs.clksel);
                     e.messages == [StartAt(sendTime + period, period)])
            && (e.result.Err? ==> e.messages == [])
  {
  }

  // ----- laziness -----

  /** A read, or a write that leaves enable, mode and clock as they are. */
  predicate Neutral(t: TimerRegs, a: Access) {
    a.WriteAt? && a.offset == 0x08 ==>
      && Bit(a.val, 7) == t.enabled
      && Bit(a.val, 6) == (t.mode == Periodic)
      && Bit(a.val, 3) == (t.clksel == Khz508)
  }

  predicate AllNeutral(t: TimerRegs, run: seq<Access>) {
    forall k :: 0 <= k < |run| ==> Neutral(t, run[k])
  }

  lemma NeutralAccessUpdates(t: TimerRegs, a: Access)
    requires Valid(t) && Fits(t, a.now) && t.enabled && Neutral(t, a)
    ensures After(t, a) == UpdateRegs(t, a.now).regs
    ensures After(t, a) == t.(lastTime := a.now, microticks := After(t, a).microticks, val := After(t, a).val)
  {
  }

  /** Time split in two pieces: the ticks add up, the remainder is carried. */
  lemma ElapsedSplits(t: TimerRegs, mid: nat, end: nat)
    requires t.lastTime <= mid <= end
    ensures var u := t.(lastTime := mid, microticks := Elapsed(t, mid) % MEGA);
            && Elapsed(t, end) / MEGA == Elapsed(t, mid) / MEGA + Elapsed(u, end) / MEGA
            && Elapsed(t, end) % MEGA == Elapsed(u, end) % MEGA
  {
    var u := t.(lastTime := mid, microticks := Elapsed(t, mid) % MEGA);
    assert (end - t.lastTime) * Khz(t.clksel) == (mid - t.lastTime) * Khz(t.clksel) + (end - mid) * Khz(t.clksel);
    assert Elapsed(t, end) == Elapsed(t, mid) + (end - mid) * Khz(t.clksel);
  }

  /** Neither the truncation of the ticks to 32 bits nor the masking loses anything. */
  lemma TruncatedTicksSuffice(v: word, all: nat, bits: nat)
    requires bits <= 32
    ensures And((v - all % TWO_TO_THE_32) % TWO_TO_THE_32, WrapMask(bits)) == (v - all) % Pow2(bits)
  {
    var ticks := all % TWO_TO_THE_32;
    var wrapped := (v - ticks) % TWO_TO_THE_32;
    AndLowMask(wrapped, bits);
    AddMultiple(v - ticks, TWO_TO_THE_32, -(all / TWO_TO_THE_32));
    assert wrapped == (v - all) % TWO_TO_THE_32;
    Pow2Product(bits);
    RemainderOfRemainder(v - all, Pow2(bits), Pow2(32 - bits));
  }

  /** A free-running update is exact modulo the counter width. */
  lemma FreeRunningUpdate(t: TimerRegs, now: nat)
    requires Valid(t) && Fits(t, now) && t.enabled && t.mode == FreeRunning
    ensures UpdateRegs(t, now).regs.val == (t.val - Elapsed(t, now) / MEGA) % Pow2(t.bits)
    ensures UpdateRegs(t, now).regs.microticks == Elapsed(t, now) % MEGA
  {
    TruncatedTicksSuffice(t.val, Elapsed(t, now) / MEGA, t.bits);
  }

  lemma Pow2Product(n: nat)
    requires n <= 32
    ensures Pow2(n) * Pow2(32 - n) == TWO_TO_THE_32
  {
    Pow2Of32();
    Pow2Splits(n, 32 - n);
  }

  lemma {:induction false} Pow2Splits(n: nat, m: nat)
    ensures Pow2(n) * Pow2(m) == Pow2(n + m)
  {
    if n > 0 {
      Pow2Splits(n - 1, m);
      MulAssociates(2, Pow2(n - 1), Pow2(m));
    }
  }

  /** An access on the way to a later time changes nothing about what will be seen then. */
  lemma FreeRunningStep(t: TimerRegs, a: Access, end: nat)
    requires Valid(t) && t.enabled && t.mode == FreeRunning && Fits(t, a.now) && Neutral(t, a) && a.now <= end
    ensures var u := After(t, a);
            && u == t.(lastTime := a.now, microticks := u.microticks, val := u.val)
            && (u.val - Elapsed(u, end) / MEGA) % Pow2(t.bits) == (t.val - Elapsed(t, end) / MEGA) % Pow2(t.bits)
            && Elapsed(u, end) % MEGA == Elapsed(t, end) % MEGA
  {
    var u := After(t, a);
    NeutralAccessUpdates(t, a);
    FreeRunningUpdate(t, a.now);
    ElapsedSplits(t, a.now, end);
    assert Elapsed(u, end) == Elapsed(t.(lastTime := a.now, microticks := u.microticks), end);
    RemainderIs(u.val, Pow2(t.bits), 0, u.val);
    SubtractInPieces(t.val, u.val, Elapsed(t, a.now) / MEGA, Elapsed(u, end) / MEGA, Pow2(t.bits));
  }

  /** The counter of an enabled free-running timer after any run of accesses, however the time is
      split between them, is the one a single access at the end would have found. */
  lemma {:induction false} FreeRunningIsExact(t: TimerRegs, run: seq<Access>)
    requires Valid(t) && t.enabled && t.mode == FreeRunning && AllFit(t, run)
    requires AllNeutral(t, run)
    ensures var end := AfterRun(t, run);
            && end.lastTime == (if run == [] then t.lastTime else run[|run| - 1].now)
            && end.lastTime >= t.lastTime
            && end.val == (t.val - Elapsed(t, end.lastTime) / MEGA) % Pow2(t.bits)
            && end.microticks == Elapsed(t, end.lastTime) % MEGA
    decreases |run|
  {
    if run == [] {
      assert Elapsed(t, t.lastTime) == t.microticks;
      RemainderIs(t.val, Pow2(t.bits), 0, t.val);
    } else {
      var u := After(t, run[0]);
      NeutralAccessUpdates(t, run[0]);
      AccessKeepsValid(t, run[0]);
      FreeRunningIsExact(u, run[1..]);
      FreeRunningStep(t, run[0], AfterRun(u, run[1..]).lastTime);
    }
  }

  lemma {:induction false} OneMoreAccess(t: TimerRegs, run: seq<Access>, a: Access)
    requires t.bits <= 32 && AllFit(t, run) && Fits(AfterRun(t, run), a.now)
    ensures AfterRun(t, run).bits <= 32
    ensures AllFit(t, run + [a]) && AfterRun(t, run + [a]) == After(AfterRun(t, run), a)
    decreases |run|
  {
    if run == [] {
      assert run + [a] == [a];
      assert [a][1..] == [];
    } else {
      assert (run + [a])[0] == run[0];
      assert (run + [a])[1..] == run[1..] + [a];
      OneMoreAccess(After(t, run[0]), run[1..], a);
    }
  }

  /** So a read of the value register gives that value, whatever was read or tried before. */
  lemma {:induction false} FreeRunningReads(t: TimerRegs, run: seq<Access>, now: nat)
    requires Valid(t) && t.enabled && t.mode == FreeRunning && AllFit(t, run)
    requires AllNeutral(t, run)
    requires AfterRun(t, run).bits <= 32 && Fits(AfterRun(t, run), now)
    ensures now >= t.lastTime
    ensures ReadTimer(AfterRun(t, run), 0x04, now).result == Ok((t.val - Elapsed(t, now) / MEGA) % Pow2(t.bits))
  {
    FreeRunningIsExact(t, run);
    var a := ReadAt(0x04, now);
    OneMoreAccess(t, run, a);
    FreeRunningIsExact(t, run + [a]);
    NeutralRunKeepsMode(t, run);
  }

  lemma {:induction false} NeutralRunKeepsMode(t: TimerRegs, run: seq<Access>)
    requires Valid(t) && t.enabled && AllFit(t, run)
    requires AllNeutral(t, run)
    ensures AfterRun(t, run).enabled && AfterRun(t, run).mode == t.mode
    ensures AfterRun(t, run).loadval == t.loadval && AfterRun(t, run).clksel == t.clksel
    decreases |run|
  {
    if run != [] {
      NeutralAccessUpdates(t, run[0]);
      AccessKeepsValid(t, run[0]);
      NeutralRunKeepsMode(After(t, run[0]), run[1..]);
    }
  }

  // ----- periodic mode -----

  /** One tick of a periodic down-counter: zero is followed by the load value less one. */
  function TickDown(v: nat, load: nat): nat
    requires load > 0
  {
    if v == 0 then load - 1 else v - 1
  }

  function TicksDown(v: nat, n: nat, load: nat): nat
    requires load > 0
  {
    if n == 0 then v else TickDown(TicksDown(v, n - 1, load), load)
  }

  /** The counter in closed form. */
  lemma {:induction false} TicksDownIs(v: nat, n: nat, load: nat)
    requires load > 0
    ensures TicksDown(v, n, load) == if n <= v then v - n else (v - n) % load
  {
    if n > 0 {
      TicksDownIs(v, n - 1, load);
      if n - 1 == v {
        AddMultiple(load - 1, load, -1);
        RemainderIs(load - 1, load, 0, load - 1);
        assert (v - n) % load == load - 1;
      } else if n - 1 > v {
        StepDown(v - n + 1, load);
      }
    }
  }

  lemma StepDown(x: int, load: nat)
    requires load > 0
    ensures (x - 1) % load == if x % load == 0 then load - 1 else x % load - 1
  {
    var q := x / load;
    assert x == load * q + x % load;
    if x % load == 0 {
      MulDistributes(load, q, -1);
      RemainderIs(x - 1, load, q - 1, load - 1);
    } else {
      RemainderIs(x - 1, load, q, x % load - 1);
    }
  }

  /** A batched update reaches the counter's value modulo the load value, and stays within it. */
  lemma PeriodicBatch(v: word, ticks: word, load: word)
    requires load > 0
    ensures PeriodicVal(v, ticks, load) % load == (v - ticks) % load
    ensures v <= load ==> PeriodicVal(v, ticks, load) <= load
    ensures v < ticks ==> 0 < PeriodicVal(v, ticks, load) <= load
  {
    if v < ticks {
      var n := ticks - v;
      AddMultiple(v - ticks, load, n / load + 1);
      MulDistributes(load, n / load, 1);
      assert v - ticks + load * (n / load + 1) == load - n % load;
    }
  }

  /** Exactly when a batched update shows what the tick-by-tick counter shows: zero after a reload is
      shown as the load value instead. */
  lemma {:induction false} BatchShowsTicksExactly(v: word, ticks: word, load: word)
    requires load > 0
    ensures PeriodicVal(v, ticks, load) == TicksDown(v, ticks, load) <==> !(ticks > v && (ticks - v) % load == 0)
  {
    TicksDownIs(v, ticks, load);
    PeriodicBatch(v, ticks, load);
    if ticks > v {
      var r := PeriodicVal(v, ticks, load);
      if (ticks - v) % load != 0 {
        RemainderIs(r, load, 0, r);
      }
    }
  }

  /** Exactly when splitting an update in two shows another value than one update: the second part
      ends on the very tick on which the counter, reloaded in the first part, reaches zero. */
  lemma SplitShowsSameExactly(v: word, first: word, second: word, load: word)
    requires 0 < load && v <= load && first + second < TWO_TO_THE_32
    ensures PeriodicVal(PeriodicVal(v, first, load), second, load) == PeriodicVal(v, first + second, load)
       <==> !(first > v && second == PeriodicVal(v, first, load))
  {
    var mid := PeriodicVal(v, first, load);
    var split := PeriodicVal(mid, second, load);
    var whole := PeriodicVal(v, first + second, load);
    PeriodicBatch(v, first, load);
    PeriodicBatch(mid, second, load);
    PeriodicBatch(v, first + second, load);
    SubtractFromRemainder(mid, second, load);
    SubtractFromRemainder(v - first, second, load);
    assert split % load == whole % load;
    SameWithin(split, whole, load);
  }

  /** Numbers up to the load value with the same remainder differ only as zero and the load value do. */
  lemma SameWithin(x: nat, y: nat, load: nat)
    requires load > 0 && x <= load && y <= load && x % load == y % load
    ensures x == y || (x == 0 && y == load) || (x == load && y == 0)
  {
    if x < load {
      RemainderIs(x, load, 0, x);
    } else {
      RemainderIs(x, load, 1, 0);
    }
    if y < load {
      RemainderIs(y, load, 0, y);
    } else {
      RemainderIs(y, load, 1, 0);
    }
  }

  /** The case does occur. */
  lemma SplitCanShowAnother()
    ensures PeriodicVal(PeriodicVal(5, 14, 10), 1, 10) == 0
    ensures PeriodicVal(5, 15, 10) == 10
  {
  }

  /** The update truncates the ticks to 32 bits; it is right modulo the load value exactly when what
      was cut off is a multiple of the load value. */
  lemma TruncationIsHarmlessExactly(v: word, all: nat, load: word)
    requires load > 0
    ensures PeriodicVal(v, all % TWO_TO_THE_32, load) % load == (v - all) % load
       <==> (all - all % TWO_TO_THE_32) % load == 0
  {
    var ticks := all % TWO_TO_THE_32;
    PeriodicBatch(v, ticks, load);
    SameRemainderExactly(v - ticks, all - ticks, load);
    assert v - ticks - (all - ticks) == v - all;
  }

  /** It does harm: a 32-bit timer from power-on, given load three, enabled at 508 kHz by 0xc8, and read for
      the first time after 2^32 ticks, shows three where the counter is at two. */
  lemma {:induction false} TruncationCanHarm(start: nat)
    ensures var run := [WriteAt(0x00, 3, start, start), WriteAt(0x08, 0xc8, start, start)];
            && AllFit(New(32, start), run)
            && var edge := AfterRun(New(32, start), run);
               var now := start + 8_454_660_031_497;
               && edge.bits <= 32 && Fits(edge, now)
               && ReadTimer(edge, 0x04, now).result == Ok(3)
               && TicksDown(3, Elapsed(edge, now) / MEGA, 3) == 2
  {
    ControlBits();
    Pow2Of32();
    RemainderIs(3, Pow2(32), 0, 3);
    LoadThenEnable(32, start, 3, 0xc8);
    var run := [WriteAt(0x00, 3, start, start), WriteAt(0x08, 0xc8, start, start)];
    LateRead(AfterRun(New(32, start), run));
  }

  lemma {:induction false} LateRead(edge: TimerRegs)
    requires edge.bits <= 32 && edge.enabled && edge.mode == Periodic && edge.clksel == Khz508
    requires edge.loadval == Some(3) && edge.val == 3 && edge.microticks == 0
    ensures var now := edge.lastTime + 8_454_660_031_497;
            && Fits(edge, now)
            && ReadTimer(edge, 0x04, now).result == Ok(3)
            && TicksDown(3, Elapsed(edge, now) / MEGA, 3) == 2
  {
    var now := edge.lastTime + 8_454_660_031_497;
    assert Elapsed(edge, now) / MEGA == TWO_TO_THE_32;
    TicksDownIs(3, TWO_TO_THE_32, 3);
  }

  /** Each access of the run finds no more ticks than fit in 32 bits. */
  predicate TicksFit(t: TimerRegs, run: seq<Access>)
    requires t.bits <= 32 && AllFit(t, run)
    decreases |run|
  {
    run != [] ==> Elapsed(t, run[0].now) / MEGA < TWO_TO_THE_32 && TicksFit(After(t, run[0]), run[1..])
  }

  lemma PeriodicUpdateIs(t: TimerRegs, now: nat)
    requires Valid(t) && Fits(t, now) && t.enabled && t.mode == Periodic && t.loadval.Some?
    requires Elapsed(t, now) / MEGA < TWO_TO_THE_32
    ensures UpdateRegs(t, now).regs.val == PeriodicVal(t.val, Elapsed(t, now) / MEGA, t.loadval.value)
    ensures UpdateRegs(t, now).regs.microticks == Elapsed(t, now) % MEGA
  {
    var ticks := Elapsed(t, now) / MEGA;
    assert ticks % TWO_TO_THE_32 == ticks;
  }

  lemma PeriodicStep(t: TimerRegs, a: Access, end: nat)
    requires Valid(t) && t.enabled && t.mode == Periodic && Fits(t, a.now) && Neutral(t, a) && a.now <= end
    requires t.loadval.Some? && t.loadval.value > 0 && Elapsed(t, a.now) / MEGA < TWO_TO_THE_32
    ensures var u := After(t, a);
            var load := t.loadval.value;
            && u == t.(lastTime := a.now, microticks := u.microticks, val := u.val)
            && (u.val - Elapsed(u, end) / MEGA) % load == (t.val - Elapsed(t, end) / MEGA) % load
            && (t.val <= load ==> u.val <= load)
            && Elapsed(u, end) % MEGA == Elapsed(t, end) % MEGA
            && u.microticks == Elapsed(t, a.now) % MEGA
            && (Elapsed(t, end) / MEGA == 0 ==> u.val == t.val)
  {
    var u := After(t, a);
    var load := t.loadval.value;
    var ticks := Elapsed(t, a.now) / MEGA;
    NeutralAccessUpdates(t, a);
    PeriodicUpdateIs(t, a.now);
    PeriodicBatch(t.val, ticks, load);
    ElapsedSplits(t, a.now, end);
    assert Elapsed(u, end) == Elapsed(t.(lastTime := a.now, microticks := u.microticks), end);
    SubtractInPieces(t.val, u.val, ticks, Elapsed(u, end) / MEGA, load);
  }

  lemma {:induction false} TicksDownModuloLoad(v: nat, n: nat, load: nat)
    requires load > 0
    ensures TicksDown(v, n, load) % load == (v - n) % load
  {
    TicksDownIs(v, n, load);
    if n > v {
      RemainderIs((v - n) % load, load, 0, (v - n) % load);
    }
  }

  /** The counter of an enabled periodic timer after any run of accesses, however the time is split
      between them, is right modulo the load value and never exceeds it; the remainder is exact. */
  lemma {:induction false} PeriodicIsExactModuloLoad(t: TimerRegs, run: seq<Access>)
    requires Valid(t) && t.enabled && t.mode == Periodic && AllFit(t, run) && TicksFit(t, run)
    requires t.loadval.Some? && t.loadval.value > 0
    requires AllNeutral(t, run)
    ensures var end := AfterRun(t, run);
            && end.lastTime == (if run == [] then t.lastTime else run[|run| - 1].now)
            && end.lastTime >= t.lastTime
            && end.val % t.loadval.value == (t.val - Elapsed(t, end.lastTime) / MEGA) % t.loadval.value
            && (t.val <= t.loadval.value ==> end.val <= t.loadval.value)
            && end.microticks == Elapsed(t, end.lastTime) % MEGA
            && (Elapsed(t, end.lastTime) / MEGA == 0 ==> end.val == t.val)
    decreases |run|
  {
    if run == [] {
      assert Elapsed(t, t.lastTime) == t.microticks;
    } else {
      var u := After(t, run[0]);
      AccessKeepsValid(t, run[0]);
      NeutralAccessUpdates(t, run[0]);
      PeriodicIsExactModuloLoad(u, run[1..]);
      var end := AfterRun(u, run[1..]).lastTime;
      PeriodicStep(t, run[0], end);
      ElapsedSince(t, u, end);
    }
  }

  /** So it is, modulo the load value, the tick-by-tick counter after all ticks of the elapsed time. */
  lemma {:induction false} PeriodicMatchesTickByTick(t: TimerRegs, run: seq<Access>)
    requires Valid(t) && t.enabled && t.mode == Periodic && AllFit(t, run) && TicksFit(t, run)
    requires t.loadval.Some? && t.loadval.value > 0
    requires AllNeutral(t, run)
    ensures var end := AfterRun(t, run);
            && end.lastTime >= t.lastTime
            && end.val % t.loadval.value
            == TicksDown(t.val, Elapsed(t, end.lastTime) / MEGA, t.loadval.value) % t.loadval.value
  {
    PeriodicIsExactModuloLoad(t, run);
    TicksDownModuloLoad(t.val, Elapsed(t, AfterRun(t, run).lastTime) / MEGA, t.loadval.value);
  }

  lemma {:induction false} TicksFitOneMore(t: TimerRegs, run: seq<Access>, a: Access)
    requires t.bits <= 32 && AllFit(t, run) && TicksFit(t, run)
    requires AfterRun(t, run).bits <= 32 && Fits(AfterRun(t, run), a.now)
    requires Elapsed(AfterRun(t, run), a.now) / MEGA < TWO_TO_THE_32
    ensures AllFit(t, run + [a]) && TicksFit(t, run + [a])
    decreases |run|
  {
    OneMoreAccess(t, run, a);
    if run == [] {
      assert run + [a] == [a];
      assert [a][1..] == [];
    } else {
      assert (run + [a])[0] == run[0];
      assert (run + [a])[1..] == run[1..] + [a];
      TicksFitOneMore(After(t, run[0]), run[1..], a);
    }
  }

  /** And a read of the value register shows that counter, except that it may show a zero as the load
      value. It does so exactly when there were more ticks since the last access than the counter showed
      then; without a tick since, it shows what it showed then. */
  lemma {:induction false} PeriodicReads(t: TimerRegs, run: seq<Access>, now: nat)
    requires Valid(t) && t.enabled && t.mode == Periodic && AllFit(t, run)
    requires t.loadval.Some? && t.loadval.value > 0 && t.val <= t.loadval.value
    requires AllNeutral(t, run)
    requires AfterRun(t, run).bits <= 32 && Fits(AfterRun(t, run), now)
    requires TicksFit(t, run) && Elapsed(AfterRun(t, run), now) / MEGA < TWO_TO_THE_32
    ensures now >= t.lastTime
    ensures var load := t.loadval.value;
            var counter := TicksDown(t.val, Elapsed(t, now) / MEGA, load);
            var before := AfterRun(t, run).val;
            var since := Elapsed(AfterRun(t, run), now) / MEGA;
            var shown := ReadTimer(AfterRun(t, run), 0x04, now).result;
            && (since == 0 ==> shown == Ok(before))
            && (since > 0 ==> shown == Ok(if counter == 0 && before < since then load else counter))
            && (shown == Ok(counter) || (counter == 0 && shown == Ok(load)))
  {
    var a := ReadAt(0x04, now);
    OneMoreAccess(t, run, a);
    TicksFitOneMore(t, run, a);
    PeriodicIsExactModuloLoad(t, run);
    PeriodicIsExactModuloLoad(t, run + [a]);
    PeriodicMatchesTickByTick(t, run + [a]);
    NeutralRunKeepsMode(t, run);
    RunKeepsValid(t, run);
    var u := AfterRun(t, run);
    PeriodicUpdateIs(u, now);
    ElapsedSince(t, u, now);
    ShownAfterBatch(t.val, Elapsed(t, now) / MEGA, u.val, Elapsed(u, now) / MEGA, t.loadval.value);
  }

  /** A later access finds no more ticks than all since the start. */
  lemma {:induction false} ElapsedSince(t: TimerRegs, u: TimerRegs, now: nat)
    requires t.lastTime <= u.lastTime <= now && u.clksel == t.clksel
    requires u.microticks == Elapsed(t, u.lastTime) % MEGA
    ensures Elapsed(u, now) / MEGA <= Elapsed(t, now) / MEGA
  {
    ElapsedSplits(t, u.lastTime, now);
    assert Elapsed(u, now) == Elapsed(t.(lastTime := u.lastTime, microticks := u.microticks), now);
  }

  lemma {:induction false} ShownAfterBatch(v: nat, all: nat, before: word, since: word, load: word)
    requires load > 0 && v <= load && before <= load && since <= all && (all == 0 ==> before == v)
    requires PeriodicVal(before, since, load) % load == TicksDown(v, all, load) % load
    ensures var counter := TicksDown(v, all, load);
            var shown := PeriodicVal(before, since, load);
            && (since == 0 ==> shown == before)
            && (since > 0 ==> shown == if counter == 0 && before < since then load else counter)
            && (shown == counter || (counter == 0 && shown == load))
  {
    TicksDownIs(v, all, load);
    PeriodicBatch(before, since, load);
    SameWithin(PeriodicVal(before, since, load), TicksDown(v, all, load), load);
  }
}
