/** One vectored interrupt controller. */
module VicUnit {
  import opened Memory
  import opened Bits

  // ----- register values -----

  datatype Slot = Slot(source: byte, isrAddr: word, enabled: bool)

  /** The registers of one controller (section 6 of the EP93xx User's Guide). */
  datatype VicRegs = VicRegs(
    status: word,
    enabled: word,
    select: word,
    software: word,
    defaultIsr: word,
    slots: seq<Slot>)

  ghost predicate SourcesInRange(slots: seq<Slot>) {
    forall k :: 0 <= k < |slots| ==> slots[k].source < 32
  }

  ghost predicate ValidRegs(v: VicRegs) {
    |v.slots| == 16 && SourcesInRange(v.slots)
  }

  function ResetRegs(): VicRegs {
    VicRegs(0, 0, 0, 0, 0, seq(16, _ => Slot(0, 0, false)))
  }

  function RawStatus(v: VicRegs): word {
    Union(v.software, v.status)
  }

  function EnabledActive(v: VicRegs): word {
    And(RawStatus(v), v.enabled)
  }

  function IrqStatus(v: VicRegs): word {
    AndNot(EnabledActive(v), v.select)
  }

  function FiqStatus(v: VicRegs): word {
    And(EnabledActive(v), v.select)
  }

  predicate Irq(v: VicRegs) {
    IrqStatus(v) != 0
  }

  predicate Fiq(v: VicRegs) {
    FiqStatus(v) != 0
  }

  /** The first enabled slot whose source bit is set in `irqs`. */
  function FindIsr(slots: seq<Slot>, irqs: word): Option<word>
    requires SourcesInRange(slots)
  {
    if slots == [] then None
    else if slots[0].enabled && Bit(irqs, slots[0].source) then Some(slots[0].isrAddr)
    else FindIsr(slots[1..], irqs)
  }

  function IsrAddress(v: VicRegs): word
    requires ValidRegs(v)
  {
    if Fiq(v) || !Irq(v) then v.defaultIsr
    else
      match FindIsr(v.slots, IrqStatus(v))
      case Some(addr) => addr
      case None => v.defaultIsr
  }

  function AssertLine(v: VicRegs, source: byte): VicRegs
    requires source < 32
  {
    v.(status := Union(v.status, Shifted(source)))
  }

  function ClearLine(v: VicRegs, source: byte): VicRegs
    requires source < 32
  {
    v.(status := AndNot(v.status, Shifted(source)))
  }

  function ReadReg(v: VicRegs, offset: nat): MemResult<word>
    requires ValidRegs(v)
  {
    if offset == 0x00 then Ok(IrqStatus(v))
    else if offset == 0x04 then Ok(FiqStatus(v))
    else if offset == 0x08 then Ok(RawStatus(v))
    else if offset == 0x0c then Ok(v.select)
    else if offset == 0x10 then Ok(v.enabled)
    else if offset == 0x14 then Err(InvalidAccess)
    else if offset == 0x18 then Ok(v.software)
    else if offset == 0x1c then Err(InvalidAccess)
    else if offset == 0x20 then Err(StubRead(0))
    else if offset == 0x30 then Ok(IsrAddress(v))
    else if offset == 0x34 then Ok(v.defaultIsr)
    else if 0x100 <= offset <= 0x13c then Ok(v.slots[(offset - 0x100) / 4].isrAddr)
    else if 0x200 <= offset <= 0x23c then
      var slot := v.slots[(offset - 0x200) / 4];
      Ok((if slot.enabled then 0x20 else 0) + slot.source)
    else if offset == 0xfe0 then Ok(0x90)
    else if offset == 0xfe4 then Ok(0x11)
    else if offset == 0xfe8 then Ok(0x04)
    else if offset == 0xfec then Ok(0x00)
    else Err(Unexpected)
  }

  datatype WriteResult = WriteResult(regs: VicRegs, result: MemResult<()>)

  function WriteReg(v: VicRegs, offset: nat, val: word): WriteResult
    requires |v.slots| == 16
  {
    if offset == 0x0c then WriteResult(v.(select := val), Ok(()))
    else if offset == 0x10 then WriteResult(v.(enabled := val), Ok(()))
    else if offset == 0x14 then WriteResult(v.(enabled := AndNot(v.enabled, val)), Ok(()))
    else if offset == 0x18 then WriteResult(v.(software := Union(v.software, val)), Ok(()))
    else if offset == 0x1c then WriteResult(v.(software := AndNot(v.software, val)), Ok(()))
    else if offset == 0x20 then WriteResult(v, Err(StubWrite))
    else if offset == 0x30 then WriteResult(v, Ok(()))
    else if offset == 0x34 then WriteResult(v.(defaultIsr := val), Ok(()))
    else if 0x100 <= offset <= 0x13c then
      var k := (offset - 0x100) / 4;
      WriteResult(v.(slots := v.slots[k := v.slots[k].(isrAddr := val)]), Ok(()))
    else if 0x200 <= offset <= 0x23c then
      var k := (offset - 0x200) / 4;
      WriteResult(
        v.(slots := v.slots[k := v.slots[k].(enabled := Bit(val, 5), source := val % 0x20)]),
        Ok(()))
    else if offset == 0x00 || offset == 0x04 || offset == 0x08
            || offset == 0xfe0 || offset == 0xfe4 || offset == 0xfe8 || offset == 0xfec
    then WriteResult(v, Err(InvalidAccess))
    else WriteResult(v, Err(Unexpected))
  }

  // ----- what the status words mean -----

  /** Line `i` asks for an IRQ: raised by hardware or software, enabled, and not routed to FIQ. */
  ghost predicate RequestsIrq(v: VicRegs, i: nat) {
    i < 32 && (Bit(v.status, i) || Bit(v.software, i)) && Bit(v.enabled, i) && !Bit(v.select, i)
  }

  ghost predicate RequestsFiq(v: VicRegs, i: nat) {
    i < 32 && (Bit(v.status, i) || Bit(v.software, i)) && Bit(v.enabled, i) && Bit(v.select, i)
  }

  lemma {:induction false} StatusBits(v: VicRegs, i: nat)
    requires i < 32
    ensures Bit(RawStatus(v), i) <==> Bit(v.status, i) || Bit(v.software, i)
    ensures Bit(IrqStatus(v), i) <==> RequestsIrq(v, i)
    ensures Bit(FiqStatus(v), i) <==> RequestsFiq(v, i)
  {
    BitOfOr(v.software, v.status, i);
    BitOfAnd(RawStatus(v), v.enabled, i);
    BitOfAndNot(EnabledActive(v), v.select, i);
    BitOfAnd(EnabledActive(v), v.select, i);
  }

  /** A controller raises its IRQ (FIQ) output exactly when some line requests one. */
  lemma OutputsMeanRequests(v: VicRegs)
    ensures Irq(v) <==> exists i :: RequestsIrq(v, i)
    ensures Fiq(v) <==> exists i :: RequestsFiq(v, i)
  {
    WordHasBit(IrqStatus(v));
    WordHasBit(FiqStatus(v));
    if Irq(v) {
      var i :| 0 <= i < 32 && Bit(IrqStatus(v), i);
      StatusBits(v, i);
    }
    if i: nat :| RequestsIrq(v, i) {
      StatusBits(v, i);
    }
    if Fiq(v) {
      var i :| 0 <= i < 32 && Bit(FiqStatus(v), i);
      StatusBits(v, i);
    }
    if i: nat :| RequestsFiq(v, i) {
      StatusBits(v, i);
    }
  }

  // ----- vectored dispatch -----

  /** Slot `k` is enabled and its source requests an IRQ. */
  ghost predicate Serves(v: VicRegs, k: nat)
    requires k < |v.slots|
  {
    v.slots[k].enabled && RequestsIrq(v, v.slots[k].source)
  }

  /** The address a vectored read must give: that of the lowest-numbered serving slot,
      and the default one when no slot serves or an FIQ is pending. */
  ghost predicate Dispatches(v: VicRegs, addr: word) {
    if exists i :: RequestsFiq(v, i) then addr == v.defaultIsr
    else
      || (exists k :: IsFirstServing(v, k) && addr == v.slots[k].isrAddr)
      || (addr == v.defaultIsr && forall k :: 0 <= k < |v.slots| ==> !Serves(v, k))
  }

  ghost predicate IsFirstServing(v: VicRegs, k: int) {
    0 <= k < |v.slots| && Serves(v, k) && forall j :: 0 <= j < k ==> !Serves(v, j)
  }

  lemma {:induction false} FindIsrFrom(v: VicRegs, n: nat)
    requires ValidRegs(v) && n <= |v.slots|
    ensures SourcesInRange(v.slots[n..])
    ensures match FindIsr(v.slots[n..], IrqStatus(v))
            case None => forall k :: n <= k < |v.slots| ==> !Serves(v, k)
            case Some(addr) =>
              exists k :: n <= k < |v.slots| && Serves(v, k) && addr == v.slots[k].isrAddr
                          && forall j :: n <= j < k ==> !Serves(v, j)
    decreases |v.slots| - n
  {
    if n < |v.slots| {
      assert v.slots[n..][1..] == v.slots[n + 1..];
      StatusBits(v, v.slots[n].source);
      FindIsrFrom(v, n + 1);
    }
  }

  /** The search over the slots computes exactly the dispatch rule. */
  lemma IsrAddressDispatches(v: VicRegs)
    requires ValidRegs(v)
    ensures Dispatches(v, IsrAddress(v))
  {
    OutputsMeanRequests(v);
    FindIsrFrom(v, 0);
    assert v.slots[0..] == v.slots;
    if !Irq(v) {
      assert forall k :: 0 <= k < |v.slots| ==> !Serves(v, k);
    }
  }

  // ----- register writes -----

  /** No write can put a source at 32 or above, so every shift by a source is defined. */
  lemma WriteKeepsValid(v: VicRegs, offset: nat, val: word)
    requires ValidRegs(v)
    ensures ValidRegs(WriteReg(v, offset, val).regs)
    ensures WriteReg(v, offset, val).regs.status == v.status
  {
  }

  /** A write reaches nothing but the register it names: one word, or one half of one slot. */
  lemma WriteReachesOneRegister(v: VicRegs, offset: nat, val: word, k: nat)
    requires ValidRegs(v) && k < 16
    ensures |WriteReg(v, offset, val).regs.slots| == 16
    ensures var w := WriteReg(v, offset, val).regs;
            && (offset != 0x0c ==> w.select == v.select)
            && (offset != 0x10 && offset != 0x14 ==> w.enabled == v.enabled)
            && (offset != 0x18 && offset != 0x1c ==> w.software == v.software)
            && (offset != 0x34 ==> w.defaultIsr == v.defaultIsr)
            && (!(0x100 + 4 * k <= offset < 0x104 + 4 * k) ==> w.slots[k].isrAddr == v.slots[k].isrAddr)
            && (!(0x200 + 4 * k <= offset < 0x204 + 4 * k) ==>
                  w.slots[k].source == v.slots[k].source && w.slots[k].enabled == v.slots[k].enabled)
    ensures WriteReg(v, offset, val).result.Err? ==> WriteReg(v, offset, val).regs == v
  {
  }

  /** What a later read of a written register gives, for the registers that hold a value:
      a control word keeps its enable bit and its source, the others keep the whole word. */
  lemma WriteThenRead(v: VicRegs, offset: nat, val: word)
    requires ValidRegs(v)
    requires offset == 0x0c || offset == 0x10 || offset == 0x34 || 0x100 <= offset <= 0x13c || 0x200 <= offset <= 0x23c
    ensures ValidRegs(WriteReg(v, offset, val).regs)
    ensures ReadReg(WriteReg(v, offset, val).regs, offset) == Ok(if offset >= 0x200 then val % 0x40 else val)
  {
    WriteKeepsValid(v, offset, val);
    if offset >= 0x200 {
      ControlWordRoundTrip(val);
    }
  }

  lemma {:induction false} ControlWordRoundTrip(val: word)
    ensures (if Bit(val, 5) then 0x20 else 0) + val % 0x20 == val % 0x40
  {
    Bit5(val);
  }

  /** The clear registers remove exactly the named bits, the set register adds exactly the named bits,
      as seen by reading the enable and the software interrupt register. */
  lemma {:induction false} SetAndClearRegisters(v: VicRegs, val: word, i: nat)
    requires ValidRegs(v) && i < 32
    ensures ReadsBit(WriteReg(v, 0x14, val).regs, 0x10, i) <==> ReadsBit(v, 0x10, i) && !Bit(val, i)
    ensures ReadsBit(WriteReg(v, 0x18, val).regs, 0x18, i) <==> ReadsBit(v, 0x18, i) || Bit(val, i)
    ensures ReadsBit(WriteReg(v, 0x1c, val).regs, 0x18, i) <==> ReadsBit(v, 0x18, i) && !Bit(val, i)
  {
    BitOfAndNot(v.enabled, val, i);
    BitOfOr(v.software, val, i);
    BitOfAndNot(v.software, val, i);
  }

  /** A read of the register shows the bit. */
  predicate ReadsBit(v: VicRegs, offset: nat, i: nat)
    requires ValidRegs(v)
  {
    ReadReg(v, offset).Ok? && Bit(ReadReg(v, offset).value, i)
  }

  /** Which accesses fail, and how, and the identification registers. */
  lemma ReadFailsExactly(v: VicRegs, offset: nat)
    requires ValidRegs(v)
    ensures var result := ReadReg(v, offset);
            && (result == Err(Unexpected) <==> !Mapped(offset))
            && (result == Err(InvalidAccess) <==> offset == 0x14 || offset == 0x1c)
            && (result == Err(StubRead(0)) <==> offset == 0x20)
            && (result.Err? ==> result.error in {Unexpected, InvalidAccess, StubRead(0)})
    ensures ReadReg(v, 0xfe0) == Ok(0x90) && ReadReg(v, 0xfe4) == Ok(0x11)
    ensures ReadReg(v, 0xfe8) == Ok(0x04) && ReadReg(v, 0xfec) == Ok(0x00)
  {
  }

  lemma WriteFailsExactly(v: VicRegs, offset: nat, val: word)
    requires ValidRegs(v)
    ensures var result := WriteReg(v, offset, val).result;
            && (result == Err(Unexpected) <==> !Mapped(offset))
            && (result == Err(InvalidAccess) <==> offset in {0x00, 0x04, 0x08, 0xfe0, 0xfe4, 0xfe8, 0xfec})
            && (result == Err(StubWrite) <==> offset == 0x20)
            && (result.Err? ==> result.error in {Unexpected, InvalidAccess, StubWrite})
  {
  }

  /** The offsets at which there is a register. */
  predicate Mapped(offset: nat) {
    || offset in {0x00, 0x04, 0x08, 0x0c, 0x10, 0x14, 0x18, 0x1c, 0x20, 0x30, 0x34}
    || 0x100 <= offset <= 0x13c || 0x200 <= offset <= 0x23c
    || offset in {0xfe0, 0xfe4, 0xfe8, 0xfec}
  }

  // ----- the device -----

  class Vic {
    var status: word
    var enabled: word
    var select: word
    var software: word
    var defaultIsr: word
    const slots: array<Slot>

    ghost predicate Valid()
      reads this, slots
    {
      ValidRegs(View())
    }

    function View(): VicRegs
      reads this, slots
    {
      VicRegs(status, enabled, select, software, defaultIsr, slots[..])
    }

    constructor ()
      ensures Valid() && fresh(slots)
      ensures View() == ResetRegs()
    {
      status, enabled, select, software, defaultIsr := 0, 0, 0, 0, 0;
      slots := new Slot[16](_ => Slot(0, 0, false));
      new;
      assert slots[..] == ResetRegs().slots;
    }

    /** Request an interrupt from a hardware source. */
    method AssertInterrupt(source: byte)
      requires Valid() && source < 32
      modifies this`status
      ensures Valid() && View() == AssertLine(old(View()), source)
    {
      status := Union(status, Shifted(source));
    }

    /** Clear an interrupt from a hardware source. */
    method ClearInterrupt(source: byte)
      requires Valid() && source < 32
      modifies this`status
      ensures Valid() && View() == ClearLine(old(View()), source)
    {
      status := AndNot(status, Shifted(source));
    }

    function R32(offset: nat): MemResult<word>
      requires Valid()
      reads this, slots
    {
      ReadReg(View(), offset)
    }

    method W32(offset: nat, val: word) returns (result: MemResult<()>)
      requires Valid()
      modifies this, slots
      ensures Valid()
      ensures View() == WriteReg(old(View()), offset, val).regs
      ensures result == WriteReg(old(View()), offset, val).result
    {
      WriteKeepsValid(View(), offset, val);
      result := Ok(());
      if offset == 0x0c {
        select := val;
      } else if offset == 0x10 {
        enabled := val;
      } else if offset == 0x14 {
        enabled := AndNot(enabled, val);
      } else if offset == 0x18 {
        software := Union(software, val);
      } else if offset == 0x1c {
        software := AndNot(software, val);
      } else if offset == 0x20 {
        result := Err(StubWrite);
      } else if offset == 0x30 {
        // end of service: nothing to do
      } else if offset == 0x34 {
        defaultIsr := val;
      } else if 0x100 <= offset <= 0x13c {
        var k := (offset - 0x100) / 4;
        slots[k] := slots[k].(isrAddr := val);
      } else if 0x200 <= offset <= 0x23c {
        var k := (offset - 0x200) / 4;
        slots[k] := slots[k].(enabled := Bit(val, 5), source := val % 0x20);
      } else if offset in {0x00, 0x04, 0x08, 0xfe0, 0xfe4, 0xfe8, 0xfec} {
        result := Err(InvalidAccess);
      } else {
        result := Err(Unexpected);
      }
    }
  }
}
