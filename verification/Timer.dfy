/** A timer (section 18 of the EP93xx User's Guide): a down-counter whose registers are brought up
    to date only when they are accessed, from the nanoseconds that passed since the last access. */
module Timer {
  import opened Bits
  import opened Interrupts
  import opened Memory

  datatype Mode = FreeRunning | Periodic

  datatype Clock = Khz2 | Khz508

  function Khz(c: Clock): nat {
    match c
    case Khz2 => 2
    case Khz508 => 508
  }

  const MEGA := 1_000_000
  const TWO_TO_THE_32 := 0x1_0000_0000
  const TWO_TO_THE_64 := 0x1_0000_0000_0000_0000

  /** What the timer tells the thread that raises its interrupts. Times are in nanoseconds. */
  datatype InterrupterMsg = StartAt(next: nat, period: nat) | Stop

  datatype TimerRegs = TimerRegs(
    loadval: Option<word>,
    val: word,
    enabled: bool,
    mode: Mode,
    clksel: Clock,
    bits: nat,        // counter width
    lastTime: nat,
    microticks: nat)

  function New(bits: nat, now: nat): TimerRegs {
    TimerRegs(None, 0, false, FreeRunning, Khz2, bits, now, 0)
  }

  /** The wrap mask, all ones in the width of the counter. */
  function WrapMask(bits: nat): word
    requires bits <= 32
  {
    Pow2Fits(bits);
    Pow2(bits) - 1
  }

  /** Ticks and microticks, in millionths of a tick, that an update at `now` accounts for. */
  function Elapsed(t: TimerRegs, now: nat): nat
    requires t.lastTime <= now
  {
    (now - t.lastTime) * Khz(t.clksel) + t.microticks
  }

  /** The clock does not run backwards, and the 64-bit product of the update does not overflow. */
  predicate Fits(t: TimerRegs, now: nat) {
    t.lastTime <= now && (t.enabled ==> Elapsed(t, now) < TWO_TO_THE_64)
  }

  /** The counter of a periodic timer after a number of ticks. */
  function PeriodicVal(val: word, ticks: word, loadval: word): word {
    if loadval == 0 then 0
    else if val < ticks then loadval - (ticks - val) % loadval
    else val - ticks
  }

  datatype Outcome<T> = Outcome(regs: TimerRegs, result: MemResult<T>)

  function UpdateRegs(t: TimerRegs, now: nat): Outcome<()>
    requires t.bits <= 32 && Fits(t, now)
  {
    var u := t.(lastTime := now);
    if !t.enabled then Outcome(u, Ok(()))
    else
      var elapsed := Elapsed(t, now);
      var ticks := elapsed / MEGA % TWO_TO_THE_32; // truncated to 32 bits
      var v := u.(microticks := elapsed % MEGA);
      match t.mode
      case FreeRunning =>
        var wrapped := (t.val - ticks) % TWO_TO_THE_32;
        Outcome(v.(val := And(wrapped, WrapMask(t.bits))), Ok(()))
      case Periodic =>
        match t.loadval
        case None => Outcome(v, Err(ContractViolation(Error, None)))
        case Some(load) => Outcome(v.(val := PeriodicVal(t.val, ticks, load)), Ok(()))
  }

  function ReadTimer(t: TimerRegs, offset: nat, now: nat): Outcome<word>
    requires t.bits <= 32 && Fits(t, now)
  {
    var u := UpdateRegs(t, now);
    if u.result.Err? then Outcome(u.regs, Err(u.result.error))
    else
      Outcome(u.regs,
        if offset == 0x00 then
          if u.regs.loadval.Some? then Ok(u.regs.loadval.value) else Err(ContractViolation(Error, None))
        else if offset == 0x04 then Ok(u.regs.val)
        else if offset == 0x08 then
          Ok((if u.regs.clksel == Khz508 then 0x8 else 0)
             + (if u.regs.mode == Periodic then 0x40 else 0)
             + (if u.regs.enabled then 0x80 else 0))
        else if offset == 0x0c then Err(InvalidAccess)
        else Err(Unexpected))
  }

  /** The interval between interrupts, rounded down to whole nanoseconds. */
  function Period(loadval: nat, c: Clock): nat {
    loadval * MEGA / Khz(c)
  }

  /** What a register write does: registers, result, messages to the interrupter thread, and whether
      it clears the interrupt on the bus. */
  datatype WriteEffect = WriteEffect(
    regs: TimerRegs,
    result: MemResult<()>,
    messages: seq<InterrupterMsg>,
    clears: bool)

  /** The registers after a control word, before its effects on the interrupter. */
  function WithControl(t: TimerRegs, val: word): TimerRegs {
    var enabled := Bit(val, 7);
    t.(clksel := if Bit(val, 3) then Khz508 else Khz2,
       mode := if Bit(val, 6) then Periodic else FreeRunning,
       enabled := enabled,
       microticks := if enabled && !t.enabled then 0 else t.microticks)
  }

  function WriteControl(t: TimerRegs, val: word, sendTime: nat): WriteEffect {
    var u := WithControl(t, val);
    if !u.enabled then WriteEffect(u.(loadval := None), Ok(()), [Stop], false)
    else if !t.enabled && u.mode == Periodic then
      match u.loadval
      case None => WriteEffect(u, Err(ContractViolation(Error, None)), [], false)
      case Some(load) =>
        var period := Period(load, u.clksel);
        WriteEffect(u, Ok(()), [StartAt(sendTime + period, period)], false)
    else WriteEffect(u, Ok(()), [], false)
  }

  /** A register write at time `now`; `sendTime` is the time read again for the interrupter message. */
  function WriteTimer(t: TimerRegs, offset: nat, val: word, now: nat, sendTime: nat): WriteEffect
    requires t.bits <= 32 && Fits(t, now)
  {
    var u := UpdateRegs(t, now);
    if u.result.Err? then WriteEffect(u.regs, u.result, [], false)
    else if offset == 0x00 then
      if u.regs.enabled then WriteEffect(u.regs, Err(ContractViolation(Error, None)), [], false)
      else
        var load := And(val, WrapMask(t.bits));
        WriteEffect(u.regs.(loadval := Some(load), val := load), Ok(()), [], false)
    else if offset == 0x04 then WriteEffect(u.regs, Err(InvalidAccess), [], false)
    else if offset == 0x08 then WriteControl(u.regs, val, sendTime)
    else if offset == 0x0c then WriteEffect(u.regs, Ok(()), [], true)
    else WriteEffect(u.regs, Err(Unexpected), [], false)
  }

  // ----- the device -----

  class Timer {
    const bits: nat
    const interrupt: Interrupt
    const interruptBus: Channel<Message>
    const interrupterTx: Channel<InterrupterMsg>

    var loadval: Option<word>
    var val: word
    var enabled: bool
    var mode: Mode
    var clksel: Clock
    var lastTime: nat
    var microticks: nat

    function View(): TimerRegs
      reads this
    {
      TimerRegs(loadval, val, enabled, mode, clksel, bits, lastTime, microticks)
    }

    constructor (interruptBus: Channel<Message>, interrupt: Interrupt, bits: nat, now: nat)
      ensures View() == New(bits, now)
      ensures this.interruptBus == interruptBus && this.interrupt == interrupt
      ensures fresh(interrupterTx) && interrupterTx.queue == []
    {
      this.bits := bits;
      this.interrupt := interrupt;
      this.interruptBus := interruptBus;
      loadval := None;
      val := 0;
      enabled := false;
      mode := FreeRunning;
      clksel := Khz2;
      lastTime := now;
      microticks := 0;
      interrupterTx := new Channel<InterrupterMsg>();
    }

    /** Lazily update the registers on read and write. */
    method UpdateRegisters(now: nat) returns (result: MemResult<()>)
      requires bits <= 32 && Fits(View(), now)
      modifies this
      ensures View() == UpdateRegs(old(View()), now).regs
      ensures result == UpdateRegs(old(View()), now).result
    {
      var dt := now - lastTime;
      lastTime := now;
      if !enabled {
        return Ok(());
      }
      var elapsed := dt * Khz(clksel) + microticks;
      var ticks := elapsed / MEGA % TWO_TO_THE_32;
      microticks := elapsed % MEGA;
      match mode {
        case FreeRunning =>
          var wrapped := (val - ticks) % TWO_TO_THE_32;
          val := And(wrapped, WrapMask(bits));
        case Periodic =>
          if loadval == None {
            return Err(ContractViolation(Error, None));
          }
          var load := loadval.value;
          if load == 0 {
            val := 0;
          } else if val < ticks {
            var remaining := ticks - val;
            val := load - remaining % load;
          } else {
            val := val - ticks;
          }
      }
      result := Ok(());
    }

    method R32(offset: nat, now: nat) returns (result: MemResult<word>)
      requires bits <= 32 && Fits(View(), now)
      modifies this
      ensures View() == ReadTimer(old(View()), offset, now).regs
      ensures result == ReadTimer(old(View()), offset, now).result
    {
      var updated := UpdateRegisters(now);
      if updated.Err? {
        return Err(updated.error);
      }
      if offset == 0x00 {
        result := if loadval.Some? then Ok(loadval.value) else Err(ContractViolation(Error, None));
      } else if offset == 0x04 {
        result := Ok(val);
      } else if offset == 0x08 {
        var control := 0;
        if clksel == Khz508 {
          control := control + 0x8;
        }
        if mode == Periodic {
          control := control + 0x40;
        }
        if enabled {
          control := control + 0x80;
        }
        result := Ok(control);
      } else if offset == 0x0c {
        result := Err(InvalidAccess);
      } else {
        result := Err(Unexpected);
      }
    }

    method W32(offset: nat, val: word, now: nat, sendTime: nat) returns (result: MemResult<()>)
      requires bits <= 32 && Fits(View(), now)
      modifies this, interrupterTx, interruptBus
      ensures var e := WriteTimer(old(View()), offset, val, now, sendTime);
              && View() == e.regs
              && result == e.result
              && interrupterTx.queue == old(interrupterTx.queue) + e.messages
              && interruptBus.queue == old(interruptBus.queue) + if e.clears then [Message(interrupt, false)] else []
    {
      var updated := UpdateRegisters(now);
      if updated.Err? {
        return updated;
      }
      result := Ok(());
      if offset == 0x00 {
        if enabled {
          return Err(ContractViolation(Error, None));
        }
        var load := And(val, WrapMask(bits));
        loadval := Some(load);
        this.val := load;
      } else if offset == 0x04 {
        result := Err(InvalidAccess);
      } else if offset == 0x08 {
        result := WriteControlRegister(val, sendTime);
      } else if offset == 0x0c {
        interruptBus.Send(Message(interrupt, false));
      } else {
        result := Err(Unexpected);
      }
    }

    method WriteControlRegister(control: word, sendTime: nat) returns (result: MemResult<()>)
      modifies this, interrupterTx
      ensures var e := WriteControl(old(View()), control, sendTime);
              View() == e.regs && result == e.result && interrupterTx.queue == old(interrupterTx.queue) + e.messages
    {
      clksel := if Bit(control, 3) then Khz508 else Khz2;
      mode := if Bit(control, 6) then Periodic else FreeRunning;
      var previousEnabled := enabled;
      enabled := Bit(control, 7);
      result := Ok(());
      if enabled && !previousEnabled {
        microticks := 0;
        if mode == Periodic {
          if loadval == None {
            return Err(ContractViolation(Error, None));
          }
          var period := Period(loadval.value, clksel);
          interrupterTx.Send(StartAt(sendTime + period, period));
        }
      }
      if !enabled {
        loadval := None;
        interrupterTx.Send(Stop);
      }
    }
  }
}
