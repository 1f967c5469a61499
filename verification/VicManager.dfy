/** The two daisy-chained controllers (section 6.1 of the EP93xx User's Guide)
    and the delivery of interrupt-bus messages to them. */
module VicManager {
  import opened Bits
  import opened Memory
  import opened Interrupts
  import opened VicUnit

  datatype VicPair = VicPair(vic1: VicRegs, vic2: VicRegs)

  ghost predicate ValidPair(p: VicPair) {
    ValidRegs(p.vic1) && ValidRegs(p.vic2)
  }

  function ResetPair(): VicPair {
    VicPair(ResetRegs(), ResetRegs())
  }

  predicate IrqPair(p: VicPair) {
    Irq(p.vic1) || Irq(p.vic2)
  }

  predicate FiqPair(p: VicPair) {
    Fiq(p.vic1) || Fiq(p.vic2)
  }

  function BankRegs(p: VicPair, line: Interrupt): VicRegs {
    if Bank(line) == 1 then p.vic1 else p.vic2
  }

  function WithBank(p: VicPair, line: Interrupt, v: VicRegs): VicPair {
    if Bank(line) == 1 then p.(vic1 := v) else p.(vic2 := v)
  }

  function ReadPair(p: VicPair, offset: nat): MemResult<word>
    requires ValidPair(p)
  {
    if offset == 0x30 then
      if Irq(p.vic1) then ReadReg(p.vic1, 0x30)
      else if Irq(p.vic2) then ReadReg(p.vic2, 0x30)
      else ReadReg(p.vic1, 0x34)
    else if offset < 0x10000 then ReadReg(p.vic1, offset)
    else ReadReg(p.vic2, offset - 0x10000)
  }

  datatype PairWriteResult = PairWriteResult(pair: VicPair, result: MemResult<()>)

  function WritePair(p: VicPair, offset: nat, val: word): PairWriteResult
    requires |p.vic1.slots| == 16 && |p.vic2.slots| == 16
  {
    if offset < 0x10000 then
      var w := WriteReg(p.vic1, offset, val);
      PairWriteResult(p.(vic1 := w.regs), w.result)
    else
      var w := WriteReg(p.vic2, offset - 0x10000, val);
      PairWriteResult(p.(vic2 := w.regs), w.result)
  }

  lemma WritePairKeepsValid(p: VicPair, offset: nat, val: word)
    requires ValidPair(p)
    ensures ValidPair(WritePair(p, offset, val).pair)
    ensures WritePair(p, offset, val).pair.vic1.status == p.vic1.status
    ensures WritePair(p, offset, val).pair.vic2.status == p.vic2.status
  {
    if offset < 0x10000 {
      WriteKeepsValid(p.vic1, offset, val);
    } else {
      WriteKeepsValid(p.vic2, offset - 0x10000, val);
    }
  }

  /** The effect of one bus message on the hardware status. */
  function Deliver(p: VicPair, m: Message): VicPair {
    var v := BankRegs(p, m.line);
    WithBank(p, m.line, if m.level then AssertLine(v, Index(m.line)) else ClearLine(v, Index(m.line)))
  }

  /** The effect of a sequence of messages, first message first. */
  function DeliverAll(p: VicPair, ms: seq<Message>): VicPair
    decreases |ms|
  {
    if ms == [] then p else DeliverAll(Deliver(p, ms[0]), ms[1..])
  }

  /** The hardware status bit of a line. */
  predicate LineUp(p: VicPair, line: Interrupt) {
    Bit(BankRegs(p, line).status, Index(line))
  }

  /** The level a line has once every message of `ms` is applied to the level `up`. */
  function Settled(up: bool, ms: seq<Message>, line: Interrupt): bool
    decreases |ms|
  {
    if ms == [] then up
    else Settled(if ms[0].line == line then ms[0].level else up, ms[1..], line)
  }

  // ----- laws of delivery -----

  /** A message sets the bit of its own line and touches no other line. */
  lemma DeliverSetsOneLine(p: VicPair, m: Message, line: Interrupt)
    ensures LineUp(Deliver(p, m), line) <==> if m.line == line then m.level else LineUp(p, line)
  {
    BankIndexInjective(m.line, line);
    var v := BankRegs(p, m.line);
    BitAfterSet(v.status, Index(m.line), Index(line));
    BitAfterClear(v.status, Index(m.line), Index(line));
  }

  lemma {:induction false} DeliverAllSettles(p: VicPair, ms: seq<Message>, line: Interrupt)
    ensures LineUp(DeliverAll(p, ms), line) <==> Settled(LineUp(p, line), ms, line)
    decreases |ms|
  {
    if ms != [] {
      DeliverSetsOneLine(p, ms[0], line);
      DeliverAllSettles(Deliver(p, ms[0]), ms[1..], line);
    }
  }

  lemma {:induction false} SettledAppend(up: bool, ms: seq<Message>, m: Message, line: Interrupt)
    ensures Settled(up, ms + [m], line) == if m.line == line then m.level else Settled(up, ms, line)
    decreases |ms|
  {
    if ms == [] {
      assert ms + [m] == [m];
      assert [m][1..] == [];
    } else {
      assert (ms + [m])[1..] == ms[1..] + [m];
      SettledAppend(if ms[0].line == line then ms[0].level else up, ms[1..], m, line);
    }
  }

  /** Delivery changes nothing but the hardware status. */
  lemma {:induction false} DeliverAllKeepsRest(p: VicPair, ms: seq<Message>)
    ensures DeliverAll(p, ms).vic1 == p.vic1.(status := DeliverAll(p, ms).vic1.status)
    ensures DeliverAll(p, ms).vic2 == p.vic2.(status := DeliverAll(p, ms).vic2.status)
    decreases |ms|
  {
    if ms != [] {
      DeliverAllKeepsRest(Deliver(p, ms[0]), ms[1..]);
    }
  }

  // ----- dispatch over every history -----

  /** Everything that can happen to the controllers. */
  datatype Operation = BusMessage(m: Message) | RegisterWrite(offset: nat, val: word)

  /** The controllers after a history of operations, oldest first. */
  function AfterHistory(ops: seq<Operation>): (p: VicPair)
    ensures ValidPair(p)
  {
    if ops == [] then ResetPair()
    else
      var p := AfterHistory(ops[..|ops| - 1]);
      match ops[|ops| - 1]
      case BusMessage(m) => Deliver(p, m)
      case RegisterWrite(offset, val) =>
        WritePairKeepsValid(p, offset, val);
        WritePair(p, offset, val).pair
  }

  /** The rule for the top-level vectored read: the first controller that requests an IRQ
      dispatches; with none requesting, the first controller's default address is read. */
  ghost predicate ChainDispatches(p: VicPair, addr: word) {
    if exists i :: RequestsIrq(p.vic1, i) then Dispatches(p.vic1, addr)
    else if exists i :: RequestsIrq(p.vic2, i) then Dispatches(p.vic2, addr)
    else addr == p.vic1.defaultIsr
  }

  /** In every reachable state the vectored read follows the daisy-chain rule. */
  lemma {:induction false} VectoredReadDispatches(ops: seq<Operation>)
    ensures var p := AfterHistory(ops);
            ReadPair(p, 0x30).Ok? && ChainDispatches(p, ReadPair(p, 0x30).value)
  {
    var p := AfterHistory(ops);
    OutputsMeanRequests(p.vic1);
    OutputsMeanRequests(p.vic2);
    IsrAddressDispatches(p.vic1);
    IsrAddressDispatches(p.vic2);
  }

  /** With an FIQ pending on the controller that dispatches, the address read is always
      that controller's default one, whatever its slots hold. */
  lemma {:induction false} FiqForcesDefault(ops: seq<Operation>)
    ensures var p := AfterHistory(ops);
            && (Irq(p.vic1) && Fiq(p.vic1) ==> ReadPair(p, 0x30) == Ok(p.vic1.defaultIsr))
            && (!Irq(p.vic1) && Irq(p.vic2) && Fiq(p.vic2) ==> ReadPair(p, 0x30) == Ok(p.vic2.defaultIsr))
  {
  }

  // ----- the device -----

  class VicManager {
    const vic1: Vic
    const vic2: Vic

    ghost predicate Valid()
      reads this, vic1, vic2, vic1.slots, vic2.slots
    {
      && vic1 != vic2
      && vic1.slots != vic2.slots
      && vic1.Valid()
      && vic2.Valid()
    }

    function View(): VicPair
      reads this, vic1, vic2, vic1.slots, vic2.slots
    {
      VicPair(vic1.View(), vic2.View())
    }

    constructor ()
      ensures Valid()
      ensures fresh(vic1) && fresh(vic2) && fresh(vic1.slots) && fresh(vic2.slots)
      ensures View() == ResetPair()
    {
      vic1 := new Vic();
      vic2 := new Vic();
    }

    predicate RequestsIrqNow()
      reads this, vic1, vic2, vic1.slots, vic2.slots
    {
      IrqPair(View())
    }

    predicate RequestsFiqNow()
      reads this, vic1, vic2, vic1.slots, vic2.slots
    {
      FiqPair(View())
    }

    /** Request an interrupt from a hardware source. */
    method AssertInterrupt(line: Interrupt)
      requires Valid()
      modifies vic1`status, vic2`status
      ensures Valid() && View() == Deliver(old(View()), Message(line, true))
    {
      if Bank(line) == 1 {
        vic1.AssertInterrupt(Index(line));
      } else {
        vic2.AssertInterrupt(Index(line));
      }
    }

    /** Clear an interrupt from a hardware source. */
    method ClearInterrupt(line: Interrupt)
      requires Valid()
      modifies vic1`status, vic2`status
      ensures Valid() && View() == Deliver(old(View()), Message(line, false))
    {
      if Bank(line) == 1 {
        vic1.ClearInterrupt(Index(line));
      } else {
        vic2.ClearInterrupt(Index(line));
      }
    }

    function R32(offset: nat): MemResult<word>
      requires Valid()
      reads this, vic1, vic2, vic1.slots, vic2.slots
    {
      ReadPair(View(), offset)
    }

    method W32(offset: nat, val: word) returns (result: MemResult<()>)
      requires Valid()
      modifies vic1, vic2, vic1.slots, vic2.slots
      ensures Valid()
      ensures View() == WritePair(old(View()), offset, val).pair
      ensures result == WritePair(old(View()), offset, val).result
    {
      if offset < 0x10000 {
        result := vic1.W32(offset, val);
      } else {
        result := vic2.W32(offset - 0x10000, val);
      }
    }

    method Handle(m: Message)
      requires Valid()
      modifies vic1`status, vic2`status
      ensures Valid() && View() == Deliver(old(View()), m)
    {
      if m.level {
        AssertInterrupt(m.line);
      } else {
        ClearInterrupt(m.line);
      }
    }

    /** Apply every message waiting on the bus, in order, and leave the bus empty. */
    method DrainBus(bus: Channel<Message>)
      requires Valid()
      modifies vic1`status, vic2`status, bus
      ensures Valid()
      ensures View() == DeliverAll(old(View()), old(bus.queue))
      ensures bus.queue == []
    {
      while bus.queue != []
        invariant Valid()
        invariant DeliverAll(View(), bus.queue) == DeliverAll(old(View()), old(bus.queue))
        decreases |bus.queue|
      {
        var next := bus.TryRecv();
        Handle(next.value);
      }
    }
  }
}
