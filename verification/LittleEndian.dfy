/** Byte strings as little-endian numbers. */
module LittleEndian {
  import opened Memory

  /** 256^n */
  function Range(n: nat): (r: nat)
    ensures r > 0
  {
    if n == 0 then 1 else 0x100 * Range(n - 1)
  }

  function LowByte(val: nat): byte {
    val % 0x100
  }

  function Join(bytes: seq<byte>): nat {
    if bytes == [] then 0 else bytes[0] + 0x100 * Join(bytes[1..])
  }

  function Split(val: nat, n: nat): (bytes: seq<byte>)
    ensures |bytes| == n
  {
    if n == 0 then [] else [LowByte(val)] + Split(val / 0x100, n - 1)
  }

  lemma {:induction false} JoinFits(bytes: seq<byte>)
    ensures Join(bytes) < Range(|bytes|)
  {
    if bytes != [] {
      JoinFits(bytes[1..]);
    }
  }

  /** Splitting a number that fits and joining the bytes gives the number back. */
  lemma {:induction false} JoinOfSplit(val: nat, n: nat)
    requires val < Range(n)
    ensures Join(Split(val, n)) == val
  {
    if n > 0 {
      JoinOfSplit(val / 0x100, n - 1);
      assert Split(val, n)[1..] == Split(val / 0x100, n - 1);
    }
  }

  lemma Ranges()
    ensures Range(1) == 0x100 && Range(2) == 0x1_0000 && Range(4) == 0x1_0000_0000
  {
    assert Range(2) == 0x100 * Range(1);
    assert Range(3) == 0x100 * Range(2);
  }

  lemma {:induction false} JoinTwo(bytes: seq<byte>)
    requires |bytes| == 2
    ensures Join(bytes) == bytes[0] as int + 0x100 * bytes[1] as int
  {
    assert Join(bytes[1..]) == bytes[1] + 0x100 * Join(bytes[1..][1..]);
  }

  lemma {:induction false} JoinFour(bytes: seq<byte>)
    requires |bytes| == 4
    ensures Join(bytes)
         == bytes[0] as int + 0x100 * bytes[1] as int + 0x1_0000 * bytes[2] as int + 0x100_0000 * bytes[3] as int
  {
    JoinTwo(bytes[2..]);
    assert bytes[1..][1..] == bytes[2..];
    assert Join(bytes[1..]) == bytes[1] + 0x100 * Join(bytes[1..][1..]);
  }

  lemma {:induction false} SplitTwo(val: nat)
    ensures Split(val, 2) == [LowByte(val), LowByte(val / 0x100)]
  {
    assert Split(val / 0x100, 1) == [LowByte(val / 0x100)];
  }

  lemma {:induction false} SplitFour(val: nat)
    ensures Split(val, 4)
         == [LowByte(val), LowByte(val / 0x100), LowByte(val / 0x1_0000), LowByte(val / 0x100_0000)]
  {
    SplitTwo(val / 0x1_0000);
    assert val / 0x100 / 0x100 == val / 0x1_0000;
    assert val / 0x1_0000 / 0x100 == val / 0x100_0000;
    assert Split(val / 0x100, 3) == [LowByte(val / 0x100)] + Split(val / 0x100 / 0x100, 2);
  }
}
