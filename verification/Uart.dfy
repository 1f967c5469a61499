/** The UART as the device implements it: a shared register state updated in place. Every method
    of `State` is one critical section; every method of `Uart` is one register access. */
module UartDevice {
  import opened Bits
  import opened Interrupts
  import opened Memory
  import opened UartState

  lemma InTurn(start: seq<Message>, tx: seq<Message>, rx: seq<Message>, combo: seq<Message>)
    ensures start + tx + rx + combo == start + (tx + rx + combo)
  {
  }

  class State {
    const interrupts: UartInterrupts

    var line: LineConfig
    var ctrl: word
    var overrun: bool
    var busy: bool
    var timeout: bool
    var ctsChange: bool
    var rxBuf: seq<byte>
    var txBufSize: nat
    var asserted: Flags
    var hackInfUartRx: bool
    var hackNodelayUartTx: bool

    function View(): Regs
      reads this
    {
      Regs(line, ctrl, overrun, busy, timeout, ctsChange, rxBuf, txBufSize, asserted, hackInfUartRx, hackNodelayUartTx)
    }

    constructor NewHle(interrupts: UartInterrupts)
      ensures View() == InitRegs()
      ensures this.interrupts == interrupts
    {
      this.interrupts := interrupts;
      line := LineConfig(false, LinCtrl(0, 0, 0), LinCtrl(0x70, 0, 3), 0);
      ctrl := 1;
      overrun, busy, timeout, ctsChange := false, false, false, false;
      rxBuf := [];
      txBufSize := 0;
      asserted := Flags(false, false, false);
      hackInfUartRx, hackNodelayUartTx := false, false;
      new;
      UpdateLineControl();
    }

    method UpdateLineControl()
      requires BaudDefined(line.active)
      modifies this`line
      ensures line == UpdateLinctrl(old(line))
    {
      line := line.(fifoSize := if Bit(line.active.high, 4) then 16 else 1);
    }

    /** Bring one flag to its level and announce the change, if there is one. */
    method UpdateInterrupt(which: Line, intId: IntId, bus: Channel<Message>)
      modifies this`asserted, bus
      ensures asserted == RefreshLine(old(asserted), which, intId)
      ensures bus.queue == old(bus.queue) + ToMessages(interrupts, LineEdges(old(asserted), which, intId))
    {
      var level := LevelOf(intId, which);
      if level != Asserted(asserted, which) {
        asserted := WithAsserted(asserted, which, level);
        bus.Send(Message(InterruptOf(interrupts, which), level));
        assert ToMessages(interrupts, [Edge(which, level)]) == [Message(InterruptOf(interrupts, which), level)];
      }
    }

    method UpdateInterrupts(bus: Channel<Message>)
      modifies this`asserted, bus
      ensures View() == Refresh(old(View()))
      ensures bus.queue == old(bus.queue) + ToMessages(interrupts, RefreshEdges(old(View())))
    {
      var intId := GetIntId(View());
      MessagesLineByLine(interrupts, asserted, intId);
      ghost var start := bus.queue;
      ghost var tx := ToMessages(interrupts, LineEdges(asserted, TxLine, intId));
      UpdateInterrupt(TxLine, intId, bus);
      ghost var rx := ToMessages(interrupts, LineEdges(asserted, RxLine, intId));
      UpdateInterrupt(RxLine, intId, bus);
      ghost var combo := ToMessages(interrupts, LineEdges(asserted, ComboLine, intId));
      UpdateInterrupt(ComboLine, intId, bus);
      InTurn(start, tx, rx, combo);
    }

    /** The input thread puts a received byte into the FIFO, or notes an overrun. */
    method StoreByte(b: byte, bus: Channel<Message>)
      modifies this, bus
      ensures var s := StoreSection(old(View()), b);
              if HasRoom(old(View())) then
                && View() == Refresh(s)
                && bus.queue == old(bus.queue) + ToMessages(interrupts, RefreshEdges(s))
              else View() == s && bus.queue == old(bus.queue)
    {
      if |rxBuf| < line.fifoSize || hackInfUartRx {
        rxBuf := rxBuf + [b];
        UpdateInterrupts(bus);
      } else {
        overrun := true;
      }
    }

    /** The input thread waited long enough with bytes in the FIFO. */
    method ExpireTimeout(bus: Channel<Message>)
      modifies this, bus
      ensures var s := ExpireSection(old(View()));
              if old(rxBuf) != [] then
                && View() == Refresh(s)
                && bus.queue == old(bus.queue) + ToMessages(interrupts, RefreshEdges(s))
              else View() == s && bus.queue == old(bus.queue)
    {
      if rxBuf != [] {
        timeout := true;
        UpdateInterrupts(bus);
      }
    }

    /** The output thread marks the transmitter busy. */
    method BeginTransmit(bus: Channel<Message>)
      modifies this, bus
      ensures var s := BeginSection(old(View()));
              if !old(busy) then
                && View() == Refresh(s)
                && bus.queue == old(bus.queue) + ToMessages(interrupts, RefreshEdges(s))
              else View() == s && bus.queue == old(bus.queue)
    {
      if !busy {
        busy := true;
        ctsChange := true;
        UpdateInterrupts(bus);
      }
    }

    /** The output thread accounts for a transmitted byte. The count must not be zero. */
    method EndTransmit(bus: Channel<Message>)
      requires txBufSize > 0
      modifies this, bus
      ensures var s := EndSection(old(View()));
              && View() == Refresh(s)
              && bus.queue == old(bus.queue) + ToMessages(interrupts, RefreshEdges(s))
    {
      txBufSize := txBufSize - 1;
      if txBufSize == 0 {
        busy := false;
        ctsChange := true;
      }
      assert View() == EndSection(old(View()));
      UpdateInterrupts(bus);
    }
  }

  class Uart {
    const state: State
    const interruptBus: Channel<Message>
    const deviceOutput: Channel<byte>

    constructor NewHle(interruptBus: Channel<Message>, interrupts: UartInterrupts)
      ensures this.interruptBus == interruptBus
      ensures fresh(state) && state.View() == InitRegs() && state.interrupts == interrupts
      ensures fresh(deviceOutput) && deviceOutput.queue == []
    {
      this.interruptBus := interruptBus;
      state := new State.NewHle(interrupts);
      deviceOutput := new Channel<byte>();
    }

    method HackInfUartRx(active: bool)
      modifies state`hackInfUartRx
      ensures state.View() == old(state.View()).(infiniteRx := active)
    {
      state.hackInfUartRx := active;
    }

    method HackNodelayUartTx(active: bool)
      modifies state`hackNodelayUartTx
      ensures state.View() == old(state.View()).(nodelayTx := active)
    {
      state.hackNodelayUartTx := active;
    }

    method R32(offset: nat) returns (result: MemResult<word>)
      modifies state, interruptBus
      ensures var s := ReadSection(old(state.View()), offset);
              && result == s.result
              && state.View() == (if s.refresh then Refresh(s.regs) else s.regs)
              && interruptBus.queue == old(interruptBus.queue)
                 + if s.refresh then ToMessages(state.interrupts, RefreshEdges(s.regs)) else []
    {
      if offset == 0x00 {
        result := ReadData();
      } else if offset == 0x04 {
        result := Ok(if state.overrun then 8 else 0);
      } else if offset == 0x08 {
        result := Ok(state.line.active.high);
      } else if offset == 0x0c {
        result := if state.line.latched then Err(ContractViolation(Warn, None)) else Ok(state.line.active.mid);
      } else if offset == 0x10 {
        result := if state.line.latched then Err(ContractViolation(Warn, None)) else Ok(state.line.active.low);
      } else if offset == 0x14 {
        result := Ok(state.ctrl);
      } else if offset == 0x18 {
        var flags := ReadFlags();
        result := Ok(flags);
      } else if offset == 0x1c {
        result := Ok(IntIdWord(GetIntId(state.View())));
      } else if offset == 0x28 {
        result := Err(Unimplemented);
      } else {
        result := Err(Unexpected);
      }
    }

    method ReadData() returns (result: MemResult<word>)
      modifies state, interruptBus
      ensures var s := ReadSection(old(state.View()), 0x00);
              && result == s.result
              && state.View() == (if s.refresh then Refresh(s.regs) else s.regs)
              && interruptBus.queue == old(interruptBus.queue)
                 + if s.refresh then ToMessages(state.interrupts, RefreshEdges(s.regs)) else []
    {
      if state.rxBuf == [] {
        return Err(ContractViolation(Warn, None));
      }
      var val := state.rxBuf[0];
      state.rxBuf := state.rxBuf[1..];
      if state.rxBuf == [] {
        state.timeout := false;
      }
      assert state.View() == ReadSection(old(state.View()), 0x00).regs;
      state.UpdateInterrupts(interruptBus);
      result := Ok(val);
    }

    method ReadFlags() returns (flags: word)
      ensures flags == FlagWord(state.View())
    {
      flags := 0;
      if state.txBufSize == 0 {
        flags := flags + 0x80;
      }
      if |state.rxBuf| >= state.line.fifoSize {
        flags := flags + 0x40;
      }
      if state.txBufSize >= state.line.fifoSize {
        flags := flags + 0x20;
      }
      if state.rxBuf == [] {
        flags := flags + 0x10;
      }
      if state.busy {
        flags := flags + 0x8;
      } else {
        flags := flags + 0x1;
      }
    }

    method W32(offset: nat, val: word) returns (result: MemResult<()>)
      requires WriteDefined(state.View(), offset, val)
      modifies state, interruptBus, deviceOutput
      ensures var s := WriteSection(old(state.View()), offset, val);
              var t := if s.send.Some? then CountSent(s.regs) else s.regs;
              && result == s.result
              && deviceOutput.queue == old(deviceOutput.queue) + (if s.send.Some? then [s.send.value] else [])
              && state.View() == (if s.refresh then Refresh(t) else t)
              && interruptBus.queue == old(interruptBus.queue)
                 + if s.refresh then ToMessages(state.interrupts, RefreshEdges(t)) else []
    {
      result := Ok(());
      var refresh := false;
      if offset == 0x00 {
        if state.txBufSize < state.line.fifoSize {
          deviceOutput.Send(val % 0x100);
          state.txBufSize := state.txBufSize + 1;
          refresh := true;
        }
      } else if offset == 0x04 {
        state.overrun := false;
        refresh := true;
      } else if offset == 0x08 {
        var latch := state.line.latch.(high := val);
        state.line := state.line.(latched := false, latch := latch, active := latch);
        state.UpdateLineControl();
        refresh := true;
      } else if offset == 0x0c {
        state.line := state.line.(latched := true, latch := state.line.latch.(mid := val));
      } else if offset == 0x10 {
        state.line := state.line.(latched := true, latch := state.line.latch.(low := val));
      } else if offset == 0x14 {
        state.ctrl := val;
        refresh := true;
      } else if offset == 0x18 {
        result := Err(InvalidAccess);
      } else if offset == 0x1c {
        state.ctsChange := false;
        refresh := true;
      } else if offset == 0x28 {
        result := Err(Unimplemented);
      } else {
        result := Err(Unexpected);
      }
      ghost var s := WriteSection(old(state.View()), offset, val);
      assert refresh == s.refresh && result == s.result;
      assert state.View() == if s.send.Some? then CountSent(s.regs) else s.regs;
      if refresh {
        state.UpdateInterrupts(interruptBus);
      }
    }
  }
}
