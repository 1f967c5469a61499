/** Fixed-size RAM with a shadow that remembers which bytes were ever written. */
module Ram {
  import opened LittleEndian
  import opened Memory

  datatype RamState = RamState(asan: bool, mem: seq<byte>, initialized: seq<bool>)

  const FILL: byte := 0x2d // '-'

  ghost predicate ValidState(r: RamState) {
    |r.mem| == |r.initialized|
  }

  function NewState(size: nat): RamState {
    RamState(true, seq(size, _ => FILL), seq(size, _ => false))
  }

  function Overwrite<T>(s: seq<T>, offset: nat, data: seq<T>): (t: seq<T>)
    requires offset + |data| <= |s|
    ensures |t| == |s|
  {
    s[..offset] + data + s[offset + |data|..]
  }

  function Store(r: RamState, offset: nat, data: seq<byte>): RamState
    requires ValidState(r) && offset + |data| <= |r.mem|
  {
    r.(mem := Overwrite(r.mem, offset, data),
       initialized := Overwrite(r.initialized, offset, seq(|data|, _ => true)))
  }

  predicate AllInitialized(r: RamState, offset: nat, n: nat)
    requires ValidState(r) && offset + n <= |r.mem|
  {
    forall k :: offset <= k < offset + n ==> r.initialized[k]
  }

  /** A read of `n` bytes. A word read lets a word pass whose aligned first byte was written. */
  function Load(r: RamState, offset: nat, n: nat): MemResult<word>
    requires ValidState(r) && offset + n <= |r.mem| && n in {1, 2, 4}
  {
    var bytes := r.mem[offset..offset + n];
    JoinFits(bytes);
    Ranges();
    var val := Join(bytes);
    if r.asan && !AllInitialized(r, offset, n) && !(n == 4 && r.initialized[offset - offset % 4])
    then Err(ContractViolation(Warn, Some(val)))
    else Ok(val)
  }

  // ----- histories -----

  datatype RamOp = Write(offset: nat, data: seq<byte>) | SetAsan(active: bool)

  /** Every write of the history lies within the RAM. */
  predicate InRange(size: nat, ops: seq<RamOp>) {
    forall k :: 0 <= k < |ops| ==> ops[k].Write? ==> ops[k].offset + |ops[k].data| <= size
  }

  function AfterOps(size: nat, ops: seq<RamOp>): (r: RamState)
    requires InRange(size, ops)
    ensures ValidState(r) && |r.mem| == size
  {
    if ops == [] then NewState(size)
    else
      var r := AfterOps(size, ops[..|ops| - 1]);
      match ops[|ops| - 1]
      case Write(offset, data) => Store(r, offset, data)
      case SetAsan(active) => r.(asan := active)
  }

  /** The byte last written to an address, if any was. */
  function LastWritten(ops: seq<RamOp>, addr: nat): Option<byte> {
    if ops == [] then None
    else
      match ops[|ops| - 1]
      case Write(offset, data) =>
        if offset <= addr < offset + |data| then Some(data[addr - offset])
        else LastWritten(ops[..|ops| - 1], addr)
      case SetAsan(_) => LastWritten(ops[..|ops| - 1], addr)
  }

  function Content(ops: seq<RamOp>, addr: nat): byte {
    match LastWritten(ops, addr)
    case Some(b) => b
    case None => FILL
  }

  /** RAM is the map of last-written bytes, and the shadow is the set of written addresses. */
  lemma {:induction false} RamIsLastWritten(size: nat, ops: seq<RamOp>, addr: nat)
    requires InRange(size, ops) && addr < size
    ensures AfterOps(size, ops).mem[addr] == Content(ops, addr)
    ensures AfterOps(size, ops).initialized[addr] <==> LastWritten(ops, addr).Some?
  {
    if ops != [] {
      RamIsLastWritten(size, ops[..|ops| - 1], addr);
    }
  }

  /** The sanitizer is on unless it was switched off last. */
  predicate SanitizerOn(ops: seq<RamOp>) {
    if ops == [] then true
    else if ops[|ops| - 1].SetAsan? then ops[|ops| - 1].active
    else SanitizerOn(ops[..|ops| - 1])
  }

  lemma {:induction false} SanitizerIsAsSet(size: nat, ops: seq<RamOp>)
    requires InRange(size, ops)
    ensures AfterOps(size, ops).asan == SanitizerOn(ops)
  {
    if ops != [] {
      SanitizerIsAsSet(size, ops[..|ops| - 1]);
    }
  }

  // ----- the device -----

  class Ram {
    var asan: bool
    const mem: array<byte>
    const initialized: array<bool>

    ghost predicate Valid()
      reads this
    {
      mem.Length == initialized.Length
    }

    ghost function View(): RamState
      reads this, mem, initialized
    {
      RamState(asan, mem[..], initialized[..])
    }

    constructor (size: nat)
      ensures Valid() && View() == NewState(size)
      ensures fresh(mem) && fresh(initialized)
    {
      asan := true;
      mem := new byte[size](_ => FILL);
      initialized := new bool[size](_ => false);
      new;
      assert mem[..] == NewState(size).mem;
      assert initialized[..] == NewState(size).initialized;
    }

    method SetAsan(active: bool)
      requires Valid()
      modifies this`asan
      ensures Valid() && View() == old(View()).(asan := active)
    {
      asan := active;
    }

    /** The shadow of the next `n` bytes becomes true. */
    method MarkWritten(offset: nat, n: nat)
      requires Valid() && offset + n <= mem.Length
      modifies initialized
      ensures initialized[..] == Overwrite(old(initialized[..]), offset, seq(n, _ => true))
    {
      for k := 0 to n
        invariant forall j :: offset <= j < offset + k ==> initialized[j]
        invariant forall j :: 0 <= j < offset || offset + k <= j < initialized.Length ==>
                                initialized[j] == old(initialized[j])
      {
        initialized[offset + k] := true;
      }
      assert initialized[..] == Overwrite(old(initialized[..]), offset, seq(n, _ => true));
    }

    method BulkWrite(offset: nat, data: seq<byte>)
      requires Valid() && offset + |data| <= mem.Length
      modifies mem, initialized
      ensures Valid() && View() == Store(old(View()), offset, data)
    {
      for k := 0 to |data|
        invariant forall j :: offset <= j < offset + k ==> mem[j] == data[j - offset]
        invariant forall j :: 0 <= j < offset || offset + k <= j < mem.Length ==> mem[j] == old(mem[j])
        invariant initialized[..] == old(initialized[..])
      {
        mem[offset + k] := data[k];
      }
      assert mem[..] == Overwrite(old(mem[..]), offset, data);
      MarkWritten(offset, |data|);
    }

    method W8(offset: nat, val: byte) returns (result: MemResult<()>)
      requires Valid() && offset < mem.Length
      modifies mem, initialized
      ensures Valid() && View() == Store(old(View()), offset, [val])
      ensures result == Ok(())
    {
      initialized[offset] := true;
      mem[offset] := val;
      assert mem[..] == Overwrite(old(mem[..]), offset, [val]);
      assert initialized[..] == Overwrite(old(initialized[..]), offset, seq(1, _ => true));
      result := Ok(());
    }

    method W16(offset: nat, val: nat) returns (result: MemResult<()>)
      requires Valid() && offset + 2 <= mem.Length && val < 0x1_0000
      modifies mem, initialized
      ensures Valid() && View() == Store(old(View()), offset, Split(val, 2))
      ensures result == Ok(())
    {
      MarkWritten(offset, 2);
      mem[offset] := LowByte(val);
      mem[offset + 1] := LowByte(val / 0x100);
      SplitTwo(val);
      assert mem[..] == Overwrite(old(mem[..]), offset, Split(val, 2));
      result := Ok(());
    }

    method W32(offset: nat, val: word) returns (result: MemResult<()>)
      requires Valid() && offset + 4 <= mem.Length
      modifies mem, initialized
      ensures Valid() && View() == Store(old(View()), offset, Split(val, 4))
      ensures result == Ok(())
    {
      MarkWritten(offset, 4);
      mem[offset] := LowByte(val);
      mem[offset + 1] := LowByte(val / 0x100);
      mem[offset + 2] := LowByte(val / 0x1_0000);
      mem[offset + 3] := LowByte(val / 0x100_0000);
      SplitFour(val);
      assert mem[..] == Overwrite(old(mem[..]), offset, Split(val, 4));
      result := Ok(());
    }

    method R8(offset: nat) returns (result: MemResult<word>)
      requires Valid() && offset < mem.Length
      ensures result == Load(View(), offset, 1)
    {
      var val := mem[offset];
      assert mem[..][offset..offset + 1] == mem[offset..offset + 1];
      assert Join(mem[offset..offset + 1]) == val + 0x100 * Join(mem[offset..offset + 1][1..]);
      if asan && !initialized[offset] {
        return Err(ContractViolation(Warn, Some(val)));
      }
      result := Ok(val);
    }

    method R16(offset: nat) returns (result: MemResult<word>)
      requires Valid() && offset + 2 <= mem.Length
      ensures result == Load(View(), offset, 2)
    {
      var val := mem[offset] as int + 0x100 * mem[offset + 1] as int;
      assert mem[..][offset..offset + 2] == mem[offset..offset + 2];
      JoinTwo(mem[offset..offset + 2]);
      if asan && !(initialized[offset] && initialized[offset + 1]) {
        return Err(ContractViolation(Warn, Some(val)));
      }
      result := Ok(val);
    }

    method R32(offset: nat) returns (result: MemResult<word>)
      requires Valid() && offset + 4 <= mem.Length
      ensures result == Load(View(), offset, 4)
    {
      var val := mem[offset] as int + 0x100 * mem[offset + 1] as int
        + 0x1_0000 * mem[offset + 2] as int + 0x100_0000 * mem[offset + 3] as int;
      assert mem[..][offset..offset + 4] == mem[offset..offset + 4];
      JoinFour(mem[offset..offset + 4]);
      var all := initialized[offset] && initialized[offset + 1] && initialized[offset + 2] && initialized[offset + 3];
      if asan && !all {
        if initialized[offset - offset % 4] {
          return Ok(val);
        } else {
          return Err(ContractViolation(Warn, Some(val)));
        }
      }
      result := Ok(val);
    }
  }
}
