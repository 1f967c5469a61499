/** The system controller (section 5 of the EP93xx User's Guide): a software lock in front of its
    configuration registers, and the power state of the system. */
module Syscon {
  import opened Memory

  datatype PowerState = Run | Halt | Standby

  datatype SysconRegs = SysconRegs(
    scratch0: word,
    scratch1: word,
    deviceCfg: word,
    locked: bool,
    power: PowerState)

  function NewHle(): SysconRegs {
    SysconRegs(0, 0, 0x0894_0d00, true, Run)
  }

  const UNIMPLEMENTED: set<nat> :=
    {0x00, 0x04, 0x18, 0x1c, 0x20, 0x24, 0x50, 0x54, 0x58, 0x84, 0x88, 0x8c, 0x90, 0x94, 0x9c}

  datatype Outcome<T> = Outcome(regs: SysconRegs, result: MemResult<T>)

  function ReadReg(s: SysconRegs, offset: nat): Outcome<word> {
    if offset == 0x08 || offset == 0x0c then
      if s.deviceCfg % 2 == 1
      then Outcome(s.(power := if offset == 0x08 then Halt else Standby), Ok(0))
      else Outcome(s, Err(ContractViolation(Error, None)))
    else if offset == 0x40 then Outcome(s, Ok(s.scratch0))
    else if offset == 0x44 then Outcome(s, Ok(s.scratch1))
    else if offset == 0x80 then Outcome(s, Ok(s.deviceCfg))
    else if offset == 0xc0 then Outcome(s, Ok(if s.locked then 0 else 1))
    else if offset in UNIMPLEMENTED then Outcome(s, Err(Unimplemented))
    else Outcome(s, Err(Unexpected))
  }

  /** The offsets behind the lock, whether or not a register is mapped there. */
  predicate Protected(offset: nat) {
    0x80 <= offset <= 0x9c
  }

  function WriteReg(s: SysconRegs, offset: nat, val: word): Outcome<()> {
    if Protected(offset) && s.locked then Outcome(s, Err(ContractViolation(Error, None)))
    else
      var t := if Protected(offset) then s.(locked := true) else s;
      if offset == 0x08 || offset == 0x0c then Outcome(t, Err(InvalidAccess))
      else if offset == 0x40 then Outcome(t.(scratch0 := val), Ok(()))
      else if offset == 0x44 then Outcome(t.(scratch1 := val), Ok(()))
      else if offset == 0x80 then Outcome(t.(deviceCfg := val), Ok(()))
      else if offset == 0xc0 then
        if val == 0xaa then Outcome(t.(locked := false), Ok(()))
        else Outcome(t, Err(ContractViolation(Error, None)))
      else if offset in UNIMPLEMENTED then Outcome(t, Err(Unimplemented))
      else Outcome(t, Err(Unexpected))
  }

  function SetRunMode(s: SysconRegs): SysconRegs {
    s.(power := Run)
  }

  // ----- histories -----

  /** What can happen to the controller: register accesses, and being woken. */
  datatype SysconOp = ReadOp(offset: nat) | WriteOp(offset: nat, val: word) | Wake

  function Apply(s: SysconRegs, op: SysconOp): SysconRegs {
    match op
    case ReadOp(offset) => ReadReg(s, offset).regs
    case WriteOp(offset, val) => WriteReg(s, offset, val).regs
    case Wake => SetRunMode(s)
  }

  /** The registers after a history, oldest operation first. */
  function After(ops: seq<SysconOp>): SysconRegs {
    if ops == [] then NewHle() else Apply(After(ops[..|ops| - 1]), ops[|ops| - 1])
  }

  function ApplyAll(s: SysconRegs, ops: seq<SysconOp>): SysconRegs
    decreases |ops|
  {
    if ops == [] then s else ApplyAll(Apply(s, ops[0]), ops[1..])
  }

  lemma {:induction false} AppliedInTurn(s: SysconRegs, first: seq<SysconOp>, second: seq<SysconOp>)
    ensures ApplyAll(s, first + second) == ApplyAll(ApplyAll(s, first), second)
    decreases |first|
  {
    if first == [] {
      assert first + second == second;
    } else {
      assert (first + second)[1..] == first[1..] + second;
      AppliedInTurn(Apply(s, first[0]), first[1..], second);
    }
  }

  lemma {:induction false} AfterAppended(done: seq<SysconOp>, ops: seq<SysconOp>)
    ensures After(done + ops) == ApplyAll(After(done), ops)
    decreases |ops|
  {
    if ops == [] {
      assert done + ops == done;
    } else {
      var now := done + [ops[0]];
      assert now[..|now| - 1] == done;
      AfterAppended(now, ops[1..]);
      assert now + ops[1..] == done + ops;
    }
  }

  predicate IsUnlock(op: SysconOp) {
    op == WriteOp(0xc0, 0xaa)
  }

  predicate IsProtectedWrite(op: SysconOp) {
    op.WriteOp? && 0x80 <= op.offset <= 0x9c
  }

  predicate IsConfigWrite(op: SysconOp) {
    op.WriteOp? && op.offset == 0x80
  }

  // ----- the lock -----

  /** Before operation `i` there was an unlock, and no write behind the lock since. */
  ghost predicate OpenAt(ops: seq<SysconOp>, i: nat) {
    exists u :: UnlockedBy(ops, u, i)
  }

  ghost predicate UnlockedBy(ops: seq<SysconOp>, u: int, i: nat) {
    0 <= u < i <= |ops| && IsUnlock(ops[u]) && forall k :: u < k < i ==> !IsProtectedWrite(ops[k])
  }

  lemma {:induction false} OpenAtPrefix(ops: seq<SysconOp>, n: nat, i: nat)
    requires i <= n <= |ops|
    ensures OpenAt(ops[..n], i) <==> OpenAt(ops, i)
  {
    if u :| UnlockedBy(ops, u, i) {
      assert UnlockedBy(ops[..n], u, i);
    }
    if u :| UnlockedBy(ops[..n], u, i) {
      assert UnlockedBy(ops, u, i);
    }
  }

  /** The controller is unlocked exactly when an unlock was not yet used up by a write behind the lock. */
  lemma {:induction false} LockIsOpenExactly(ops: seq<SysconOp>)
    ensures !After(ops).locked <==> OpenAt(ops, |ops|)
    ensures ReadReg(After(ops), 0xc0).result == Ok(if OpenAt(ops, |ops|) then 1 else 0)
  {
    if ops != [] {
      var n := |ops| - 1;
      LockIsOpenExactly(ops[..n]);
      OpenAtPrefix(ops, n, n);
      if IsUnlock(ops[n]) {
        assert UnlockedBy(ops, n, |ops|);
      } else if !IsProtectedWrite(ops[n]) {
        if u :| UnlockedBy(ops, u, n) {
          assert UnlockedBy(ops, u, |ops|);
        }
        if u :| UnlockedBy(ops, u, |ops|) {
          assert UnlockedBy(ops, u, n);
        }
      }
    }
  }

  /** How many writes behind the lock got past it. */
  function Passed(ops: seq<SysconOp>): nat {
    if ops == [] then 0
    else
      var n := |ops| - 1;
      Passed(ops[..n]) + if IsProtectedWrite(ops[n]) && !After(ops[..n]).locked then 1 else 0
  }

  function Unlocks(ops: seq<SysconOp>): nat {
    if ops == [] then 0
    else Unlocks(ops[..|ops| - 1]) + if IsUnlock(ops[|ops| - 1]) then 1 else 0
  }

  /** Every write that passes the lock used up an unlock of its own. */
  lemma {:induction false} EveryPassCostsAnUnlock(ops: seq<SysconOp>)
    ensures Passed(ops) + (if After(ops).locked then 0 else 1) <= Unlocks(ops)
  {
    if ops != [] {
      EveryPassCostsAnUnlock(ops[..|ops| - 1]);
    }
  }

  // ----- entering a low-power state -----

  /** Operation `k` sets the configuration register. */
  ghost predicate Configures(ops: seq<SysconOp>, k: nat)
    requires k < |ops|
  {
    IsConfigWrite(ops[k]) && OpenAt(ops, k)
  }

  /** Write `c` is the one that set the configuration register as it stands before operation `n`. */
  ghost predicate ConfiguredBy(ops: seq<SysconOp>, c: int, n: nat) {
    && 0 <= c < n <= |ops|
    && Configures(ops, c)
    && forall k :: c < k < n ==> !Configures(ops, k)
  }

  /** The shutdown-enable bit was set, through the lock, by the last write that reached the register. */
  ghost predicate ShutdownEnabledAt(ops: seq<SysconOp>, n: nat) {
    exists c :: ConfiguredBy(ops, c, n) && ops[c].val % 2 == 1
  }

  lemma {:induction false} ConfiguredByPrefix(ops: seq<SysconOp>, m: nat, c: int, n: nat)
    requires n <= m <= |ops|
    ensures ConfiguredBy(ops[..m], c, n) <==> ConfiguredBy(ops, c, n)
  {
    if 0 <= c < n {
      OpenAtPrefix(ops, m, c);
      forall k | c < k < n
        ensures Configures(ops[..m], k) <==> Configures(ops, k)
      {
        OpenAtPrefix(ops, m, k);
      }
    }
  }

  lemma {:induction false} ShutdownPrefix(ops: seq<SysconOp>, m: nat, n: nat)
    requires n <= m <= |ops|
    ensures ShutdownEnabledAt(ops[..m], n) <==> ShutdownEnabledAt(ops, n)
  {
    if c :| ConfiguredBy(ops, c, n) && ops[c].val % 2 == 1 {
      ConfiguredByPrefix(ops, m, c, n);
    }
    if c :| ConfiguredBy(ops[..m], c, n) && ops[..m][c].val % 2 == 1 {
      ConfiguredByPrefix(ops, m, c, n);
    }
  }

  /** The configuration register holds what the last write that reached it wrote. */
  ghost predicate HoldsConfiguration(ops: seq<SysconOp>, n: nat, cfg: word) {
    if exists c :: ConfiguredBy(ops, c, n)
    then exists c :: ConfiguredBy(ops, c, n) && ops[c].val == cfg
    else cfg == 0x0894_0d00
  }

  lemma {:induction false} ConfigurationIsLastWrite(ops: seq<SysconOp>)
    ensures HoldsConfiguration(ops, |ops|, After(ops).deviceCfg)
    ensures ReadReg(After(ops), 0x80).result == Ok(After(ops).deviceCfg)
  {
    if ops != [] {
      var n := |ops| - 1;
      LockIsOpenExactly(ops[..n]);
      OpenAtPrefix(ops, n, n);
      ConfigurationIsLastWrite(ops[..n]);
      if Configures(ops, n) {
        assert ConfiguredBy(ops, n, |ops|);
      } else {
        assert After(ops).deviceCfg == After(ops[..n]).deviceCfg;
        OtherOpsKeepConfiguration(ops, n, After(ops).deviceCfg);
      }
    }
  }

  lemma {:induction false} OtherOpsKeepConfiguration(ops: seq<SysconOp>, n: nat, cfg: word)
    requires |ops| == n + 1 && !Configures(ops, n)
    requires HoldsConfiguration(ops[..n], n, cfg)
    ensures HoldsConfiguration(ops, |ops|, cfg)
  {
    forall c
      ensures ConfiguredBy(ops[..n], c, n) <==> ConfiguredBy(ops, c, |ops|)
    {
      ConfiguredByPrefix(ops, n, c, n);
      assert ConfiguredBy(ops, c, n) <==> ConfiguredBy(ops, c, |ops|);
    }
  }

  lemma OneWriteConfigures(ops: seq<SysconOp>, c: int, d: int, n: nat)
    requires ConfiguredBy(ops, c, n) && ConfiguredBy(ops, d, n)
    ensures c == d
  {
  }

  lemma {:induction false} ShutdownIsEnabledExactly(ops: seq<SysconOp>)
    ensures After(ops).deviceCfg % 2 == 1 <==> ShutdownEnabledAt(ops, |ops|)
  {
    ConfigurationIsLastWrite(ops);
    if c :| ConfiguredBy(ops, c, |ops|) {
      forall d | ConfiguredBy(ops, d, |ops|)
        ensures d == c
      {
        OneWriteConfigures(ops, c, d, |ops|);
      }
    }
  }

  /** Operation `k` is a read that enters the low-power state `p`. */
  ghost predicate Enters(ops: seq<SysconOp>, k: nat, p: PowerState)
    requires k < |ops|
  {
    && ((p == Halt && ops[k] == ReadOp(0x08)) || (p == Standby && ops[k] == ReadOp(0x0c)))
    && ShutdownEnabledAt(ops, k)
  }

  /** Operation `k` leaves the power state as it is. */
  ghost predicate KeepsPower(ops: seq<SysconOp>, k: nat)
    requires k < |ops|
  {
    ops[k] != Wake && !Enters(ops, k, Halt) && !Enters(ops, k, Standby)
  }

  /** Operation `h` entered the low-power state `p`, and nothing left it before operation `n`. */
  ghost predicate EnteredBy(ops: seq<SysconOp>, h: int, p: PowerState, n: nat) {
    0 <= h < n <= |ops| && Enters(ops, h, p) && forall k :: h < k < n ==> KeepsPower(ops, k)
  }

  lemma {:induction false} EnteredByPrefix(ops: seq<SysconOp>, h: int, p: PowerState, n: nat)
    requires n <= |ops|
    ensures EnteredBy(ops[..n], h, p, n) <==> EnteredBy(ops, h, p, n)
  {
    if 0 <= h < n {
      ShutdownPrefix(ops, n, h);
      forall k | h < k < n
        ensures KeepsPower(ops[..n], k) <==> KeepsPower(ops, k)
      {
        ShutdownPrefix(ops, n, k);
      }
    }
  }

  ghost predicate InLowPower(ops: seq<SysconOp>, p: PowerState) {
    exists h :: EnteredBy(ops, h, p, |ops|)
  }

  /** The system is in a low-power state exactly when the whole handshake happened, in order: an unlock,
      a configuration write that used it to set the shutdown-enable bit, the entering read; and it has
      not been woken since. */
  lemma {:induction false} LowPowerExactly(ops: seq<SysconOp>, p: PowerState)
    requires p != Run
    ensures After(ops).power == p <==> InLowPower(ops, p)
  {
    if ops != [] {
      var n := |ops| - 1;
      LowPowerExactly(ops[..n], p);
      ShutdownIsEnabledExactly(ops[..n]);
      ShutdownPrefix(ops, n, n);
      LastOpMovesPower(ops, n, p);
      if KeepsPower(ops, n) {
        OtherOpsKeepPower(ops, n, p);
      } else {
        LastOpDecides(ops, n, p);
      }
    }
  }

  lemma {:induction false} LastOpMovesPower(ops: seq<SysconOp>, n: nat, p: PowerState)
    requires |ops| == n + 1 && p != Run
    requires After(ops[..n]).deviceCfg % 2 == 1 <==> ShutdownEnabledAt(ops, n)
    ensures KeepsPower(ops, n) ==> After(ops).power == After(ops[..n]).power
    ensures !KeepsPower(ops, n) ==> (After(ops).power == p <==> Enters(ops, n, p))
  {
  }

  lemma LastOpDecides(ops: seq<SysconOp>, n: nat, p: PowerState)
    requires |ops| == n + 1 && !KeepsPower(ops, n) && p != Run
    ensures InLowPower(ops, p) <==> Enters(ops, n, p)
  {
    if Enters(ops, n, p) {
      assert EnteredBy(ops, n, p, |ops|);
    }
  }

  lemma OtherOpsKeepPower(ops: seq<SysconOp>, n: nat, p: PowerState)
    requires |ops| == n + 1 && KeepsPower(ops, n) && p != Run
    ensures InLowPower(ops, p) <==> InLowPower(ops[..n], p)
  {
    if h :| EnteredBy(ops, h, p, |ops|) {
      assert EnteredBy(ops, h, p, n);
      EnteredByPrefix(ops, h, p, n);
    }
    if h :| EnteredBy(ops[..n], h, p, n) {
      EnteredByPrefix(ops, h, p, n);
      assert EnteredBy(ops, h, p, |ops|);
    }
  }

  /** The value last written to a register in the history, zero if it was never written. */
  function LastWritten(ops: seq<SysconOp>, offset: nat): word {
    if ops == [] then 0
    else
      var op := ops[|ops| - 1];
      if op.WriteOp? && op.offset == offset then op.val else LastWritten(ops[..|ops| - 1], offset)
  }

  /** After every history a scratch register reads as the last value written to it. */
  lemma {:induction false} ScratchIsLastWrite(ops: seq<SysconOp>, offset: nat)
    requires offset == 0x40 || offset == 0x44
    ensures ReadReg(After(ops), offset).result == Ok(LastWritten(ops, offset))
  {
    if ops != [] {
      ScratchIsLastWrite(ops[..|ops| - 1], offset);
    }
  }

  // ----- failures -----

  /** A write behind the lock fails, and changes nothing, exactly when the lock is not open. */
  lemma {:induction false} LockedWriteFailsExactly(ops: seq<SysconOp>, offset: nat, val: word)
    requires 0x80 <= offset <= 0x9c
    ensures WriteReg(After(ops), offset, val) == Outcome(After(ops), Err(ContractViolation(Error, None)))
       <==> !OpenAt(ops, |ops|)
    ensures OpenAt(ops, |ops|) ==> WriteReg(After(ops), offset, val).regs.locked
  {
    LockIsOpenExactly(ops);
  }

  /** The read that enters a low-power state fails exactly when the shutdown-enable bit is not set. */
  lemma {:induction false} EnteringFailsExactly(ops: seq<SysconOp>, offset: nat)
    requires offset == 0x08 || offset == 0x0c
    ensures ReadReg(After(ops), offset).result
         == if ShutdownEnabledAt(ops, |ops|) then Ok(0) else Err(ContractViolation(Error, None))
  {
    ShutdownIsEnabledExactly(ops);
  }

  /** Which reads fail, and how. */
  lemma ReadFailsExactly(s: SysconRegs, offset: nat)
    ensures var result := ReadReg(s, offset).result;
            && (result == Err(Unexpected) <==> !Mapped(offset))
            && (result == Err(Unimplemented) <==> IsMissing(offset))
            && (result == Err(ContractViolation(Error, None)) <==> offset in {0x08, 0x0c} && s.deviceCfg % 2 == 0)
            && (result.Err? ==> result.error in {Unexpected, Unimplemented, ContractViolation(Error, None)})
  {
  }

  /** Which writes fail, and how. */
  lemma WriteFailsExactly(s: SysconRegs, offset: nat, val: word)
    ensures var result := WriteReg(s, offset, val).result;
            var behindLock := 0x80 <= offset <= 0x9c && s.locked;
            && (result == Err(ContractViolation(Error, None)) <==> behindLock || (offset == 0xc0 && val != 0xaa))
            && (result == Err(Unexpected) <==> !behindLock && !Mapped(offset))
            && (result == Err(Unimplemented) <==> !behindLock && IsMissing(offset))
            && (result == Err(InvalidAccess) <==> offset in {0x08, 0x0c})
            && (result.Err? ==>
                  result.error in {Unexpected, Unimplemented, InvalidAccess, ContractViolation(Error, None)})
  {
  }

  /** The offsets at which there is a register that is not implemented, and at which there is any. */
  predicate IsMissing(offset: nat) {
    || offset in {0x00, 0x04, 0x18, 0x1c, 0x20, 0x24, 0x50, 0x54, 0x58}
    || offset in {0x84, 0x88, 0x8c, 0x90, 0x94, 0x9c}
  }

  predicate Mapped(offset: nat) {
    IsMissing(offset) || offset in {0x08, 0x0c, 0x40, 0x44, 0x80, 0xc0}
  }

  // ----- the device -----

  class Syscon {
    var scratch0: word
    var scratch1: word
    var deviceCfg: word
    var locked: bool
    var power: PowerState

    function View(): SysconRegs
      reads this
    {
      SysconRegs(scratch0, scratch1, deviceCfg, locked, power)
    }

    constructor ()
      ensures View() == NewHle()
    {
      scratch0, scratch1 := 0, 0;
      deviceCfg := 0x0894_0d00;
      locked := true;
      power := Run;
    }

    method WakeUp()
      modifies this`power
      ensures View() == SetRunMode(old(View()))
    {
      power := Run;
    }

    method R32(offset: nat) returns (result: MemResult<word>)
      modifies this
      ensures View() == ReadReg(old(View()), offset).regs
      ensures result == ReadReg(old(View()), offset).result
    {
      if offset == 0x08 || offset == 0x0c {
        if deviceCfg % 2 == 1 {
          power := if offset == 0x08 then Halt else Standby;
          result := Ok(0);
        } else {
          result := Err(ContractViolation(Error, None));
        }
      } else if offset == 0x40 {
        result := Ok(scratch0);
      } else if offset == 0x44 {
        result := Ok(scratch1);
      } else if offset == 0x80 {
        result := Ok(deviceCfg);
      } else if offset == 0xc0 {
        result := Ok(if locked then 0 else 1);
      } else if offset in UNIMPLEMENTED {
        result := Err(Unimplemented);
      } else {
        result := Err(Unexpected);
      }
    }

    method W32(offset: nat, val: word) returns (result: MemResult<()>)
      modifies this
      ensures View() == WriteReg(old(View()), offset, val).regs
      ensures result == WriteReg(old(View()), offset, val).result
    {
      if Protected(offset) {
        if locked {
          return Err(ContractViolation(Error, None));
        }
        locked := true; // a write behind the lock closes it again
      }
      result := Ok(());
      if offset == 0x08 || offset == 0x0c {
        result := Err(InvalidAccess);
      } else if offset == 0x40 {
        scratch0 := val;
      } else if offset == 0x44 {
        scratch1 := val;
      } else if offset == 0x80 {
        deviceCfg := val;
      } else if offset == 0xc0 {
        if val == 0xaa {
          locked := false;
        } else {
          result := Err(ContractViolation(Error, None));
        }
      } else if offset in UNIMPLEMENTED {
        result := Err(Unimplemented);
      } else {
        result := Err(Unexpected);
      }
    }
  }
}
