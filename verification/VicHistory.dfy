/** The registers of the two controllers after any history, in terms of what was written to which address
    and of the messages delivered. */
module VicHistory {
  import opened Bits
  import opened Interrupts
  import opened Memory
  import opened VicManager
  import opened VicUnit

  /** The controller at an address from the first one. */
  function At(p: VicPair, base: nat): VicRegs {
    if base == 0 then p.vic1 else p.vic2
  }

  predicate IsBase(base: nat) {
    base == 0 || base == 0x10000
  }

  predicate WritesIn(op: Operation, from: nat, to: nat) {
    op.RegisterWrite? && from <= op.offset < to
  }

  /** The value last written to an address in the range, zero if there was none. */
  function LastIn(ops: seq<Operation>, from: nat, to: nat): word {
    if ops == [] then 0
    else
      var n := |ops| - 1;
      if WritesIn(ops[n], from, to) then ops[n].val else LastIn(ops[..n], from, to)
  }

  /** The value last written to an address, zero if there was none. */
  function LastAt(ops: seq<Operation>, at: nat): word {
    LastIn(ops, at, at + 1)
  }

  /** Whether line `i` is enabled: as the enable register was last written, less what was cleared since. */
  predicate EnabledBy(ops: seq<Operation>, base: nat, i: nat) {
    if ops == [] then false
    else
      var n := |ops| - 1;
      var op := ops[n];
      if op.RegisterWrite? && op.offset == base + 0x10 then Bit(op.val, i)
      else if op.RegisterWrite? && op.offset == base + 0x14 then EnabledBy(ops[..n], base, i) && !Bit(op.val, i)
      else EnabledBy(ops[..n], base, i)
  }

  /** Whether line `i` is raised by software: set and not cleared since. */
  predicate RaisedBy(ops: seq<Operation>, base: nat, i: nat) {
    if ops == [] then false
    else
      var n := |ops| - 1;
      var op := ops[n];
      if op.RegisterWrite? && op.offset == base + 0x18 then RaisedBy(ops[..n], base, i) || Bit(op.val, i)
      else if op.RegisterWrite? && op.offset == base + 0x1c then RaisedBy(ops[..n], base, i) && !Bit(op.val, i)
      else RaisedBy(ops[..n], base, i)
  }

  /** Whether line `i` is routed to FIQ. */
  predicate ToFiqBy(ops: seq<Operation>, base: nat, i: nat) {
    Bit(LastAt(ops, base + 0x0c), i)
  }

  /** Where the two registers of slot `k` are. The last one of each table is one address wide. */
  function AddressAt(base: nat, k: nat): nat {
    base + 0x100 + 4 * k
  }

  function AddressEnd(base: nat, k: nat): nat {
    if k == 15 then base + 0x13d else base + 0x104 + 4 * k
  }

  function ControlAt(base: nat, k: nat): nat {
    base + 0x200 + 4 * k
  }

  function ControlEnd(base: nat, k: nat): nat {
    if k == 15 then base + 0x23d else base + 0x204 + 4 * k
  }

  function SlotAddress(ops: seq<Operation>, base: nat, k: nat): word {
    LastIn(ops, AddressAt(base, k), AddressEnd(base, k))
  }

  function SlotControl(ops: seq<Operation>, base: nat, k: nat): word {
    LastIn(ops, ControlAt(base, k), ControlEnd(base, k))
  }

  /** The level last announced for a line, down if there was no message. */
  predicate LevelBy(ops: seq<Operation>, line: Interrupt) {
    if ops == [] then false
    else
      var n := |ops| - 1;
      var op := ops[n];
      if op.BusMessage? && op.m.line == line then op.m.level else LevelBy(ops[..n], line)
  }

  // ----- one operation -----

  function Apply(p: VicPair, op: Operation): VicPair
    requires ValidPair(p)
  {
    match op
    case BusMessage(m) => Deliver(p, m)
    case RegisterWrite(offset, val) => WritePair(p, offset, val).pair
  }

  /** A write below 0x10000 reaches the first controller alone, any other the second alone. */
  predicate Reaches(op: Operation, base: nat) {
    op.RegisterWrite? && (op.offset < 0x10000 <==> base == 0)
  }

  /** The offset of a write within the controller it reaches. */
  function Within(op: Operation, base: nat): nat
    requires IsBase(base) && Reaches(op, base)
  {
    op.offset - base
  }

  /** The controller at `base` after an operation: its hardware status may change by a message, all else only by
      a write that reaches it. */
  lemma ApplyIsRouted(p: VicPair, op: Operation, base: nat)
    requires ValidPair(p) && IsBase(base)
    ensures var v, w := At(p, base), At(Apply(p, op), base);
            && w == (if Reaches(op, base) then WriteReg(v, Within(op, base), op.val).regs else v.(status := w.status))
            && |w.slots| == 16
  {
  }

  lemma ReadIsRouted(p: VicPair, base: nat, offset: nat)
    requires ValidPair(p) && IsBase(base) && offset < 0x10000 && (base == 0 ==> offset != 0x30)
    ensures ReadPair(p, base + offset) == ReadReg(At(p, base), offset)
  {
  }

  /** What a write does to the words, to a slot and to the bits of one controller. */
  lemma WriteOnWords(v: VicRegs, offset: nat, val: word)
    requires ValidRegs(v)
    ensures var w := WriteReg(v, offset, val).regs;
            && w.select == (if offset == 0x0c then val else v.select)
            && w.defaultIsr == (if offset == 0x34 then val else v.defaultIsr)
  {
  }

  lemma {:induction false} WriteOnSlot(v: VicRegs, offset: nat, val: word, k: nat)
    requires ValidRegs(v) && k < 16
    ensures |WriteReg(v, offset, val).regs.slots| == 16
    ensures var s, t := v.slots[k], WriteReg(v, offset, val).regs.slots[k];
            && t.isrAddr == (if AddressAt(0, k) <= offset < AddressEnd(0, k) then val else s.isrAddr)
            && (if ControlAt(0, k) <= offset < ControlEnd(0, k)
                then t.enabled == Bit(val, 5) && t.source == val % 0x20
                else t.enabled == s.enabled && t.source == s.source)
  {
  }

  lemma {:induction false} WriteOnBits(v: VicRegs, offset: nat, val: word, i: nat)
    requires ValidRegs(v) && i < 32
    ensures var w := WriteReg(v, offset, val).regs;
            && (Bit(w.enabled, i) <==>
                  if offset == 0x10 then Bit(val, i)
                  else if offset == 0x14 then Bit(v.enabled, i) && !Bit(val, i)
                  else Bit(v.enabled, i))
            && (Bit(w.software, i) <==>
                  if offset == 0x18 then Bit(v.software, i) || Bit(val, i)
                  else if offset == 0x1c then Bit(v.software, i) && !Bit(val, i)
                  else Bit(v.software, i))
  {
    BitOfAndNot(v.enabled, val, i);
    BitOfOr(v.software, val, i);
    BitOfAndNot(v.software, val, i);
  }

  lemma ApplyOnLine(p: VicPair, op: Operation, line: Interrupt)
    requires ValidPair(p)
    ensures LineUp(Apply(p, op), line) <==> if op.BusMessage? && op.m.line == line then op.m.level else LineUp(p, line)
  {
    match op
    case BusMessage(m) => DeliverSetsOneLine(p, m, line);
    case RegisterWrite(offset, val) => WritePairKeepsValid(p, offset, val);
  }

  // ----- histories -----

  lemma {:induction false} WordsOverHistory(ops: seq<Operation>, base: nat)
    requires IsBase(base)
    ensures At(AfterHistory(ops), base).select == LastAt(ops, base + 0x0c)
    ensures At(AfterHistory(ops), base).defaultIsr == LastAt(ops, base + 0x34)
  {
    if ops != [] {
      var n := |ops| - 1;
      WordsOverHistory(ops[..n], base);
      var p := AfterHistory(ops[..n]);
      ApplyIsRouted(p, ops[n], base);
      if Reaches(ops[n], base) {
        WriteOnWords(At(p, base), Within(ops[n], base), ops[n].val);
      }
    }
  }

  lemma {:induction false} SlotOverHistory(ops: seq<Operation>, base: nat, k: nat)
    requires IsBase(base) && k < 16
    ensures var slot := At(AfterHistory(ops), base).slots[k];
            && slot.isrAddr == SlotAddress(ops, base, k)
            && slot.enabled == Bit(SlotControl(ops, base, k), 5)
            && slot.source == SlotControl(ops, base, k) % 0x20
  {
    if ops == [] {
      BitOfZero(5);
    } else {
      var n := |ops| - 1;
      SlotOverHistory(ops[..n], base, k);
      var p := AfterHistory(ops[..n]);
      ApplyIsRouted(p, ops[n], base);
      if Reaches(ops[n], base) {
        WriteOnSlot(At(p, base), Within(ops[n], base), ops[n].val, k);
      }
    }
  }

  lemma {:induction false} BitsOverHistory(ops: seq<Operation>, base: nat, i: nat)
    requires IsBase(base) && i < 32
    ensures Bit(At(AfterHistory(ops), base).enabled, i) <==> EnabledBy(ops, base, i)
    ensures Bit(At(AfterHistory(ops), base).software, i) <==> RaisedBy(ops, base, i)
  {
    if ops == [] {
      BitOfZero(i);
    } else {
      var n := |ops| - 1;
      BitsOverHistory(ops[..n], base, i);
      var p := AfterHistory(ops[..n]);
      ApplyIsRouted(p, ops[n], base);
      if Reaches(ops[n], base) {
        WriteOnBits(At(p, base), Within(ops[n], base), ops[n].val, i);
      }
    }
  }

  lemma {:induction false} LineOverHistory(ops: seq<Operation>, line: Interrupt)
    ensures LineUp(AfterHistory(ops), line) <==> LevelBy(ops, line)
  {
    if ops == [] {
      BitOfZero(Index(line));
    } else {
      var n := |ops| - 1;
      LineOverHistory(ops[..n], line);
      ApplyOnLine(AfterHistory(ops[..n]), ops[n], line);
    }
  }

  // ----- reads -----

  predicate ReadsBit(p: VicPair, at: nat, i: nat)
    requires ValidPair(p)
  {
    ReadPair(p, at).Ok? && Bit(ReadPair(p, at).value, i)
  }

  lemma ReadsOfSlot(v: VicRegs, k: nat)
    requires ValidRegs(v) && k < 16
    ensures ReadReg(v, 0x100 + 4 * k) == Ok(v.slots[k].isrAddr)
    ensures ReadReg(v, 0x200 + 4 * k) == Ok((if v.slots[k].enabled then 0x20 else 0) + v.slots[k].source)
  {
  }

  /** After every history, each controller's registers read as what was written at its own addresses, with
      set and clear accounted for; what was written to the other one plays no part. */
  lemma {:induction false} ReadsOverHistory(ops: seq<Operation>, base: nat, i: nat)
    requires IsBase(base) && i < 32
    ensures var p := AfterHistory(ops);
            && ReadPair(p, base + 0x0c) == Ok(LastAt(ops, base + 0x0c))
            && ReadPair(p, base + 0x34) == Ok(LastAt(ops, base + 0x34))
            && (ReadsBit(p, base + 0x10, i) <==> EnabledBy(ops, base, i))
            && (ReadsBit(p, base + 0x18, i) <==> RaisedBy(ops, base, i))
  {
    WordsOverHistory(ops, base);
    BitsOverHistory(ops, base, i);
    var p := AfterHistory(ops);
    ReadIsRouted(p, base, 0x0c);
    ReadIsRouted(p, base, 0x10);
    ReadIsRouted(p, base, 0x18);
    ReadIsRouted(p, base, 0x34);
  }

  /** The same for the two registers of each slot. */
  lemma {:induction false} SlotReadsOverHistory(ops: seq<Operation>, base: nat, k: nat)
    requires IsBase(base) && k < 16
    ensures ReadPair(AfterHistory(ops), AddressAt(base, k)) == Ok(SlotAddress(ops, base, k))
    ensures ReadPair(AfterHistory(ops), ControlAt(base, k)) == Ok(SlotControl(ops, base, k) % 0x40)
  {
    var control := SlotControl(ops, base, k);
    SlotOverHistory(ops, base, k);
    ControlWordRoundTrip(control);
    ReadsOfSlotAt(AfterHistory(ops), base, k, if Bit(control, 5) then 0x20 else 0, control % 0x20);
  }

  lemma {:induction false} ReadsOfSlotAt(p: VicPair, base: nat, k: nat, enable: nat, source: nat)
    requires ValidPair(p) && IsBase(base) && k < 16 && enable + source < 0x40
    requires At(p, base).slots[k].source == source && enable == if At(p, base).slots[k].enabled then 0x20 else 0
    ensures ReadPair(p, AddressAt(base, k)) == Ok(At(p, base).slots[k].isrAddr)
    ensures ReadPair(p, ControlAt(base, k)) == Ok(enable + source)
  {
    ReadIsRouted(p, base, 0x100 + 4 * k);
    ReadIsRouted(p, base, 0x200 + 4 * k);
    ReadsOfSlot(At(p, base), k);
  }

  /** After every history, the status registers show each line where it is wired to: raw if it was last
      announced up or is raised by software; as IRQ or FIQ if it was enabled, by how it was routed. */
  lemma {:induction false} StatusOverHistory(ops: seq<Operation>, line: Interrupt)
    ensures var p := AfterHistory(ops);
            var (base, i) := WiredTo(line);
            var raised := LevelBy(ops, line) || RaisedBy(ops, base, i);
            && (ReadsBit(p, base + 0x08, i) <==> raised)
            && (ReadsBit(p, base, i) <==> raised && EnabledBy(ops, base, i) && !ToFiqBy(ops, base, i))
            && (ReadsBit(p, base + 0x04, i) <==> raised && EnabledBy(ops, base, i) && ToFiqBy(ops, base, i))
  {
    WiringIsBankAndIndex(line);
    var base, i := WiredTo(line).0, WiredTo(line).1;
    WordsOverHistory(ops, base);
    BitsOverHistory(ops, base, i);
    LineOverHistory(ops, line);
    var p := AfterHistory(ops);
    StatusBits(At(p, base), i);
    ReadIsRouted(p, base, 0x00);
    ReadIsRouted(p, base, 0x04);
    ReadIsRouted(p, base, 0x08);
  }

  /** The vectored read of the second controller, at its own address, dispatches for it alone. */
  lemma {:induction false} SecondVectoredRead(ops: seq<Operation>)
    ensures var p := AfterHistory(ops);
            ReadPair(p, 0x10030).Ok? && Dispatches(p.vic2, ReadPair(p, 0x10030).value)
  {
    IsrAddressDispatches(AfterHistory(ops).vic2);
  }

  /** Which accesses of the pair fail, and how. */
  lemma PairFailsExactly(p: VicPair, base: nat, offset: nat, val: word)
    requires ValidPair(p) && IsBase(base) && offset < 0x10000
    ensures ReadPair(p, base + offset) == Err(Unexpected) <==> !Mapped(offset)
    ensures WritePair(p, base + offset, val).result == Err(Unexpected) <==> !Mapped(offset)
    ensures WritePair(p, base + offset, val).result == Err(StubWrite) <==> offset == 0x20
  {
    VicUnit.ReadFailsExactly(At(p, base), offset);
    VicUnit.WriteFailsExactly(At(p, base), offset, val);
  }
}
