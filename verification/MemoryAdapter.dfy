/** The shim between the fallible memory of the emulator and the infallible memory the processor
    expects: every access gives some value, and an exception is set aside until after the cycle. */
module MemoryAdapter {
  import Arithmetic
  import opened LittleEndian
  import opened Memory
  import opened Ram

  datatype AdapterException = AdapterException(addr: nat, kind: AccessKind, error: MemException)

  /** The value the processor gets for the result of an `n`-byte read. */
  function ValueOf(result: MemResult<word>, n: nat): nat {
    match result
    case Ok(val) => val
    case Err(StubRead(val)) => val % Range(n)
    case Err(ContractViolation(_, Some(val))) => val % Range(n)
    case Err(_) => 0
  }

  /** The exception set aside after an access, given the one set aside before. */
  function Stashed<T>(before: Option<AdapterException>, addr: nat, kind: AccessKind, result: MemResult<T>)
    : Option<AdapterException>
  {
    match result
    case Ok(_) => before
    case Err(e) => Some(AdapterException(addr, kind, e))
  }

  // ----- transparency -----

  /** The bytes last written at an address range. */
  function Contents(ops: seq<RamOp>, addr: nat, n: nat): seq<byte> {
    seq<byte>(n, k requires 0 <= k < n => Content(ops, addr + k))
  }

  /** What the processor reads is the little-endian join of the last-written bytes, whether or not the
      sanitizer is on. */
  lemma {:induction false} ReadIsLastWritten(size: nat, ops: seq<RamOp>, addr: nat, n: nat)
    requires InRange(size, ops) && n in {1, 2, 4} && addr + n <= size
    ensures ValueOf(Load(AfterOps(size, ops), addr, n), n) == Join(Contents(ops, addr, n))
  {
    var r := AfterOps(size, ops);
    forall a | addr <= a < addr + n
      ensures r.mem[a] == Content(ops, a)
    {
      RamIsLastWritten(size, ops, a);
    }
    var bytes := r.mem[addr..addr + n];
    assert bytes == Contents(ops, addr, n);
    JoinFits(bytes);
    Arithmetic.RemainderIs(Join(bytes), Range(n), 0, Join(bytes));
  }

  /** Bytes that were never written read as dashes. */
  lemma {:induction false} UnwrittenReadsAsDashes(size: nat, ops: seq<RamOp>, addr: nat, n: nat)
    requires InRange(size, ops) && n in {1, 2, 4} && addr + n <= size
    requires forall a :: addr <= a < addr + n ==> LastWritten(ops, a) == None
    ensures ValueOf(Load(AfterOps(size, ops), addr, n), n)
         == if n == 1 then 0x2d else if n == 2 then 0x2d2d else 0x2d2d_2d2d
  {
    ReadIsLastWritten(size, ops, addr, n);
    forall k: nat | k < n
      ensures Contents(ops, addr, n)[k] == 0x2d
    {
      var a := addr + k;
      assert LastWritten(ops, a) == None;
      assert Content(ops, a) == 0x2d;
    }
    DashesJoin(Contents(ops, addr, n));
  }

  lemma {:induction false} DashesJoin(bytes: seq<byte>)
    requires |bytes| in {1, 2, 4} && forall k :: 0 <= k < |bytes| ==> bytes[k] == 0x2d
    ensures Join(bytes) == if |bytes| == 1 then 0x2d else if |bytes| == 2 then 0x2d2d else 0x2d2d_2d2d
  {
    if |bytes| == 1 {
      assert Join(bytes) == bytes[0] as int + 0x100 * Join(bytes[1..]);
    } else if |bytes| == 2 {
      JoinTwo(bytes);
    } else {
      JoinFour(bytes);
    }
  }

  // ----- exceptions -----

  /** What the processor gets: the value of a read that succeeds, the stand-in of one that has one, in the width
      of the access, and zero for any other. */
  lemma ValuesExactly(val: word, severity: Severity)
    ensures forall n :: n in {1, 2, 4} ==> ValueOf(Ok(val), n) == val
    ensures ValueOf(Err(StubRead(val)), 1) == val % 0x100
    ensures ValueOf(Err(StubRead(val)), 2) == val % 0x1_0000
    ensures ValueOf(Err(StubRead(val)), 4) == val
    ensures ValueOf(Err(ContractViolation(severity, Some(val))), 1) == val % 0x100
    ensures ValueOf(Err(ContractViolation(severity, Some(val))), 2) == val % 0x1_0000
    ensures ValueOf(Err(ContractViolation(severity, Some(val))), 4) == val
    ensures forall n, e :: n in {1, 2, 4} && e in OthersThanStandIns(severity) ==> ValueOf(Err(e), n) == 0
  {
    Ranges();
  }

  /** The exceptions that stand for no value. */
  function OthersThanStandIns(severity: Severity): set<MemException> {
    {Unexpected, Unimplemented, StubWrite, Misaligned, InvalidAccess, ContractViolation(severity, None)}
  }

  /** An access as the shim sees it: where, of what kind, and how it went. */
  datatype Outcome = Outcome(addr: nat, kind: AccessKind, result: MemResult<word>)

  /** What is set aside after a number of accesses, nothing having been set aside before. */
  function SetAside(outcomes: seq<Outcome>): Option<AdapterException> {
    if outcomes == [] then None
    else
      var last := outcomes[|outcomes| - 1];
      Stashed(SetAside(outcomes[..|outcomes| - 1]), last.addr, last.kind, last.result)
  }

  predicate IsLastFailure(outcomes: seq<Outcome>, k: int) {
    && 0 <= k < |outcomes| && outcomes[k].result.Err?
    && forall j :: k < j < |outcomes| ==> outcomes[j].result.Ok?
  }

  /** The exception set aside is that of the last access that failed, with its address and kind. */
  lemma {:induction false} SetAsideIsLastFailure(outcomes: seq<Outcome>, e: AdapterException)
    ensures SetAside(outcomes) == Some(e) <==>
              exists k :: IsLastFailure(outcomes, k)
                          && e == AdapterException(outcomes[k].addr, outcomes[k].kind, outcomes[k].result.error)
  {
    if outcomes != [] {
      var n := |outcomes| - 1;
      SetAsideIsLastFailure(outcomes[..n], e);
      if outcomes[n].result.Err? {
        assert IsLastFailure(outcomes, n);
      } else {
        forall k: int
          ensures IsLastFailure(outcomes, k) <==> IsLastFailure(outcomes[..n], k)
        {
        }
      }
    }
  }

  /** The history without the switching of the sanitizer. */
  function Writes(ops: seq<RamOp>): seq<RamOp> {
    if ops == [] then []
    else Writes(ops[..|ops| - 1]) + if ops[|ops| - 1].Write? then [ops[|ops| - 1]] else []
  }

  lemma {:induction false} ContentIgnoresSanitizer(ops: seq<RamOp>, addr: nat)
    ensures LastWritten(Writes(ops), addr) == LastWritten(ops, addr)
  {
    if ops != [] {
      var before := ops[..|ops| - 1];
      ContentIgnoresSanitizer(before, addr);
      if ops[|ops| - 1].Write? {
        assert Writes(ops)[..|Writes(before)|] == Writes(before);
      } else {
        assert Writes(ops) == Writes(before);
      }
    }
  }

  /** Two histories with the same writes read alike, however the sanitizer was switched in them. */
  lemma {:induction false} SanitizerIsTransparent(size: nat, ops: seq<RamOp>, other: seq<RamOp>, addr: nat, n: nat)
    requires InRange(size, ops) && InRange(size, other) && Writes(ops) == Writes(other)
    requires n in {1, 2, 4} && addr + n <= size
    ensures ValueOf(Load(AfterOps(size, ops), addr, n), n) == ValueOf(Load(AfterOps(size, other), addr, n), n)
  {
    ReadIsLastWritten(size, ops, addr, n);
    ReadIsLastWritten(size, other, addr, n);
    forall a: nat
      ensures Content(ops, a) == Content(other, a)
    {
      ContentIgnoresSanitizer(ops, a);
      ContentIgnoresSanitizer(other, a);
    }
    assert Contents(ops, addr, n) == Contents(other, addr, n);
  }

  /** Exactly when a read of RAM raises an exception; it is never one that stops the system. */
  lemma {:induction false} ReadRaisesExactly(size: nat, ops: seq<RamOp>, addr: nat, n: nat)
    requires InRange(size, ops) && n in {1, 2, 4} && addr + n <= size
    ensures Load(AfterOps(size, ops), addr, n).Err? <==>
              && SanitizerOn(ops)
              && (exists k :: addr <= k < addr + n && LastWritten(ops, k).None?)
              && (n == 4 ==> LastWritten(ops, addr - addr % 4).None?)
    ensures var result := Load(AfterOps(size, ops), addr, n);
            result.Err? ==> result.error.ContractViolation? && result.error.severity == Warn && !Fatal(result.error)
  {
    var r := AfterOps(size, ops);
    SanitizerIsAsSet(size, ops);
    RamIsLastWritten(size, ops, addr - addr % 4);
    if k :| addr <= k < addr + n && LastWritten(ops, k).None? {
      RamIsLastWritten(size, ops, k);
    } else {
      forall k | addr <= k < addr + n
        ensures r.initialized[k]
      {
        RamIsLastWritten(size, ops, k);
      }
    }
  }

  /** No write of `later` reaches the `n` bytes at `addr`. */
  predicate Untouched(later: seq<RamOp>, addr: nat, n: nat) {
    forall k :: 0 <= k < |later| ==> later[k].Write? ==>
                                     later[k].offset + |later[k].data| <= addr || addr + n <= later[k].offset
  }

  lemma {:induction false} UntouchedKeepsLastWritten(ops: seq<RamOp>, later: seq<RamOp>, addr: nat, n: nat, a: nat)
    requires Untouched(later, addr, n) && addr <= a < addr + n
    ensures LastWritten(ops + later, a) == LastWritten(ops, a)
  {
    if later == [] {
      assert ops + later == ops;
    } else {
      var before := later[..|later| - 1];
      assert (ops + later)[..|ops + later| - 1] == ops + before;
      UntouchedKeepsLastWritten(ops, before, addr, n, a);
    }
  }

  lemma {:induction false} WrittenByteStays(ops: seq<RamOp>, later: seq<RamOp>, addr: nat, data: seq<byte>, k: nat)
    requires Untouched(later, addr, |data|) && k < |data|
    ensures Content(ops + [Write(addr, data)] + later, addr + k) == data[k]
  {
    var upto := ops + [Write(addr, data)];
    UntouchedKeepsLastWritten(upto, later, addr, |data|, addr + k);
    assert upto[..|upto| - 1] == ops;
  }

  /** A value written is read back at the same width as long as nothing is written over it. */
  lemma {:induction false} WriteThenRead(size: nat, ops: seq<RamOp>, later: seq<RamOp>, addr: nat, n: nat, val: nat)
    requires n in {1, 2, 4} && val < Range(n) && Untouched(later, addr, n)
    requires InRange(size, ops + [Write(addr, Split(val, n))] + later)
    ensures addr + n <= size
    ensures ValueOf(Load(AfterOps(size, ops + [Write(addr, Split(val, n))] + later), addr, n), n) == val
  {
    var data := Split(val, n);
    var all := ops + [Write(addr, data)] + later;
    assert all[|ops|] == Write(addr, data);
    ReadIsLastWritten(size, all, addr, n);
    forall k: nat | k < n
      ensures Content(all, addr + k) == data[k]
    {
      WrittenByteStays(ops, later, addr, data, k);
    }
    assert Contents(all, addr, n) == data;
    JoinOfSplit(val, n);
  }

  // ----- the shim -----

  class MemoryAdapter {
    const mem: Ram
    var exception: Option<AdapterException>

    constructor (mem: Ram)
      ensures this.mem == mem && exception == None
    {
      this.mem := mem;
      exception := None;
    }

    /** The exception set aside, if any; it is then forgotten. */
    method TakeException() returns (e: Option<AdapterException>)
      modifies this
      ensures e == old(exception) && exception == None
    {
      e := exception;
      exception := None;
    }

    method HandleRead(addr: nat, n: nat, result: MemResult<word>) returns (val: nat)
      modifies this
      ensures val == ValueOf(result, n)
      ensures exception == Stashed(old(exception), addr, ReadAccess, result)
    {
      match result {
        case Ok(v) => val := v;
        case Err(e) =>
          match e {
            case StubRead(v) => val := v % Range(n);
            case ContractViolation(_, Some(v)) => val := v % Range(n);
            case _ => val := 0;
          }
          exception := Some(AdapterException(addr, ReadAccess, e));
      }
    }

    method HandleWrite(addr: nat, result: MemResult<()>)
      modifies this
      ensures exception == Stashed(old(exception), addr, WriteAccess, result)
    {
      match result {
        case Ok(_) =>
        case Err(e) => exception := Some(AdapterException(addr, WriteAccess, e));
      }
    }

    method R8(addr: nat) returns (val: nat)
      requires mem.Valid() && addr < mem.mem.Length
      modifies this
      ensures val == ValueOf(Load(mem.View(), addr, 1), 1)
      ensures exception == Stashed(old(exception), addr, ReadAccess, Load(mem.View(), addr, 1))
    {
      var result := mem.R8(addr);
      val := HandleRead(addr, 1, result);
    }

    method R16(addr: nat) returns (val: nat)
      requires mem.Valid() && addr + 2 <= mem.mem.Length
      modifies this
      ensures val == ValueOf(Load(mem.View(), addr, 2), 2)
      ensures exception == Stashed(old(exception), addr, ReadAccess, Load(mem.View(), addr, 2))
    {
      var result := mem.R16(addr);
      val := HandleRead(addr, 2, result);
    }

    method R32(addr: nat) returns (val: nat)
      requires mem.Valid() && addr + 4 <= mem.mem.Length
      modifies this
      ensures val == ValueOf(Load(mem.View(), addr, 4), 4)
      ensures exception == Stashed(old(exception), addr, ReadAccess, Load(mem.View(), addr, 4))
    {
      var result := mem.R32(addr);
      val := HandleRead(addr, 4, result);
    }

    method W8(addr: nat, val: byte)
      requires mem.Valid() && addr < mem.mem.Length
      modifies this, mem.mem, mem.initialized
      ensures mem.Valid() && mem.View() == Store(old(mem.View()), addr, [val])
      ensures exception == old(exception)
    {
      var result := mem.W8(addr, val);
      HandleWrite(addr, result);
    }

    method W16(addr: nat, val: nat)
      requires mem.Valid() && addr + 2 <= mem.mem.Length && val < 0x1_0000
      modifies this, mem.mem, mem.initialized
      ensures mem.Valid() && mem.View() == Store(old(mem.View()), addr, Split(val, 2))
      ensures exception == old(exception)
    {
      var result := mem.W16(addr, val);
      HandleWrite(addr, result);
    }

    method W32(addr: nat, val: word)
      requires mem.Valid() && addr + 4 <= mem.mem.Length
      modifies this, mem.mem, mem.initialized
      ensures mem.Valid() && mem.View() == Store(old(mem.View()), addr, Split(val, 4))
      ensures exception == old(exception)
    {
      var result := mem.W32(addr, val);
      HandleWrite(addr, result);
    }
  }
}
