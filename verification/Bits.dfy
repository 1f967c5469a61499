/** Bit operations on unsigned words, written as arithmetic. */
module Bits {
  import Arithmetic
  import opened Memory

  function Pow2(n: nat): (p: nat)
    ensures p > 0
  {
    if n == 0 then 1 else 2 * Pow2(n - 1)
  }

  /** Bit `i` of `x`: the test `x & (1 << i) != 0`. */
  predicate Bit(x: nat, i: nat) {
    if i == 0 then x % 2 == 1 else Bit(x / 2, i - 1)
  }

  function Digit(b: bool): nat {
    if b then 1 else 0
  }

  /** `x & y` */
  function And(x: nat, y: nat): (r: nat)
    ensures r <= x && r <= y
  {
    if x == 0 then 0 else 2 * And(x / 2, y / 2) + Digit(x % 2 == 1 && y % 2 == 1)
  }

  /** `x | y` */
  function Or(x: nat, y: nat): nat {
    if x == 0 then y else 2 * Or(x / 2, y / 2) + Digit(x % 2 == 1 || y % 2 == 1)
  }

  /** `x & !y` */
  function AndNot(x: nat, y: nat): (r: nat)
    ensures r <= x
  {
    if x == 0 then 0 else 2 * AndNot(x / 2, y / 2) + Digit(x % 2 == 1 && y % 2 == 0)
  }

  // ----- bit by bit -----

  lemma {:induction false} BitOfZero(i: nat)
    ensures !Bit(0, i)
  {
    if i > 0 {
      BitOfZero(i - 1);
    }
  }

  lemma {:induction false} BitOfAnd(x: nat, y: nat, i: nat)
    ensures Bit(And(x, y), i) <==> Bit(x, i) && Bit(y, i)
  {
    if x == 0 {
      BitOfZero(i);
    } else if i > 0 {
      assert And(x, y) / 2 == And(x / 2, y / 2);
      BitOfAnd(x / 2, y / 2, i - 1);
    }
  }

  lemma {:induction false} BitOfOr(x: nat, y: nat, i: nat)
    ensures Bit(Or(x, y), i) <==> Bit(x, i) || Bit(y, i)
  {
    if x == 0 {
      BitOfZero(i);
    } else if i > 0 {
      assert Or(x, y) / 2 == Or(x / 2, y / 2);
      BitOfOr(x / 2, y / 2, i - 1);
    }
  }

  lemma {:induction false} BitOfAndNot(x: nat, y: nat, i: nat)
    ensures Bit(AndNot(x, y), i) <==> Bit(x, i) && !Bit(y, i)
  {
    if x == 0 {
      BitOfZero(i);
    } else if i > 0 {
      assert AndNot(x, y) / 2 == AndNot(x / 2, y / 2);
      BitOfAndNot(x / 2, y / 2, i - 1);
    }
  }

  lemma {:induction false} BitOfPow2(n: nat, i: nat)
    ensures Bit(Pow2(n), i) <==> n == i
  {
    if n == 0 && i > 0 {
      BitOfZero(i - 1);
    } else if n > 0 && i > 0 {
      assert Pow2(n) / 2 == Pow2(n - 1);
      BitOfPow2(n - 1, i - 1);
    }
  }

  lemma {:induction false} BitOfHalf(x: nat, k: nat)
    ensures Bit(x, k + 1) <==> Bit(x / 2, k)
  {
  }

  lemma {:induction false} BitOfEighth(x: nat, k: nat)
    ensures Bit(x / 8, k) <==> Bit(x, k + 3)
  {
    BitOfHalf(x, k + 2);
    BitOfHalf(x / 2, k + 1);
    BitOfHalf(x / 2 / 2, k);
    assert x / 2 / 2 / 2 == x / 8;
  }

  lemma {:induction false} AndPow2(x: nat, n: nat)
    ensures And(x, Pow2(n)) != 0 <==> Bit(x, n)
  {
    if x == 0 {
      BitOfZero(n);
    } else if n == 0 {
      assert And(x / 2, 0) == 0;
    } else {
      assert Pow2(n) / 2 == Pow2(n - 1) && Pow2(n) % 2 == 0;
      AndPow2(x / 2, n - 1);
    }
  }

  lemma {:induction false} And15(x: nat)
    requires x <= 15
    ensures And(x, 15) == x
  {
    assert And(x / 2 / 2 / 2, 1) == x / 2 / 2 / 2;
    assert And(x / 2 / 2, 3) == x / 2 / 2;
    assert And(x / 2, 7) == x / 2;
  }

  /** Bit 5 as a quotient, for the slot-enable bit of a vector control word. */
  lemma {:induction false} Bit5(x: nat)
    ensures Bit(x, 5) <==> x / 32 % 2 == 1
  {
    assert Bit(x, 5) == Bit(x / 2, 4);
    assert Bit(x / 2, 4) == Bit(x / 4, 3);
    assert Bit(x / 4, 3) == Bit(x / 8, 2);
    assert Bit(x / 8, 2) == Bit(x / 16, 1);
    assert Bit(x / 16, 1) == Bit(x / 32, 0);
  }

  // ----- width -----

  lemma Pow2Of32()
    ensures Pow2(32) == 0x1_0000_0000
  {
    assert Pow2(4) == 16;
    assert Pow2(8) == 256;
    assert Pow2(12) == 0x1000;
    assert Pow2(16) == 0x1_0000;
    assert Pow2(20) == 0x10_0000;
    assert Pow2(24) == 0x100_0000;
    assert Pow2(28) == 0x1000_0000;
  }

  lemma {:induction false} OrFits(x: nat, y: nat, n: nat)
    requires x < Pow2(n) && y < Pow2(n)
    ensures Or(x, y) < Pow2(n)
  {
    if x != 0 && n > 0 {
      OrFits(x / 2, y / 2, n - 1);
    }
  }

  lemma {:induction false} Pow2Grows(n: nat, m: nat)
    requires n < m
    ensures Pow2(n) < Pow2(m)
  {
    if n > 0 {
      Pow2Grows(n - 1, m - 1);
    } else if m > 1 {
      Pow2Grows(0, m - 1);
    }
  }

  lemma {:induction false} Pow2Fits(n: nat)
    requires n <= 32
    ensures Pow2(n) <= 0x1_0000_0000
  {
    Pow2Of32();
    if n < 32 {
      Pow2Grows(n, 32);
    }
  }

  lemma {:induction false} NonZeroHasBit(x: nat, n: nat)
    requires 0 < x < Pow2(n)
    ensures exists i :: 0 <= i < n && Bit(x, i)
  {
    if x % 2 == 1 {
      assert n > 0 && Bit(x, 0);
    } else {
      NonZeroHasBit(x / 2, n - 1);
      var i :| 0 <= i < n - 1 && Bit(x / 2, i);
      assert Bit(x, i + 1);
    }
  }

  lemma {:induction false} BitBeyond(x: nat, n: nat, k: nat)
    requires x < Pow2(n) && n <= k
    ensures !Bit(x, k)
  {
    if x == 0 {
      BitOfZero(k);
    } else {
      BitBeyond(x / 2, n - 1, k - 1);
    }
  }

  lemma {:induction false} SameBits(x: nat, y: nat)
    requires forall k: nat :: Bit(x, k) == Bit(y, k)
    ensures x == y
    decreases x + y
  {
    assert Bit(x, 0) == Bit(y, 0);
    if x + y > 0 {
      forall k: nat
        ensures Bit(x / 2, k) == Bit(y / 2, k)
      {
        BitOfHalf(x, k);
        BitOfHalf(y, k);
      }
      SameBits(x / 2, y / 2);
    }
  }

  /** Masking with the low `n` bits is the remainder modulo 2^n. */
  lemma {:induction false} AndLowMask(x: nat, n: nat)
    ensures And(x, Pow2(n) - 1) == x % Pow2(n)
  {
    if n == 0 {
      AndZero(x);
    } else {
      var m := Pow2(n - 1);
      AndOdd(x, m);
      AndLowMask(x / 2, n - 1);
      HalfModulo(x, m);
    }
  }

  lemma {:induction false} AndZero(x: nat)
    ensures And(x, 0) == 0
  {
    if x != 0 {
      AndZero(x / 2);
    }
  }

  lemma AndOdd(x: nat, m: nat)
    requires m > 0
    ensures And(x, 2 * m - 1) == 2 * And(x / 2, m - 1) + x % 2
  {
    assert (2 * m - 1) / 2 == m - 1 && (2 * m - 1) % 2 == 1;
  }

  lemma HalfModulo(x: nat, m: nat)
    requires m > 0
    ensures x % (2 * m) == 2 * (x / 2 % m) + x % 2
  {
    var q := x / 2 / m;
    Arithmetic.MulAssociates(2, m, q);
    assert x / 2 == m * q + x / 2 % m;
    Arithmetic.RemainderIs(x, 2 * m, q, 2 * (x / 2 % m) + x % 2);
  }

  // ----- operations on words -----

  /** `1 << i` */
  function Shifted(i: nat): word
    requires i < 32
  {
    Pow2Of32();
    Pow2Grows(i, 32);
    Pow2(i)
  }

  /** `x | y` stays a word. */
  function Union(x: word, y: word): word {
    Pow2Of32();
    OrFits(x, y, 32);
    Or(x, y)
  }

  /** A word is nonzero exactly when one of its 32 bits is set. */
  lemma WordHasBit(x: word)
    ensures x != 0 <==> exists i :: 0 <= i < 32 && Bit(x, i)
  {
    Pow2Of32();
    if x != 0 {
      NonZeroHasBit(x, 32);
    } else {
      forall i | 0 <= i < 32
        ensures !Bit(0, i)
      {
        BitOfZero(i);
      }
    }
  }

  /** Setting bit `i` changes bit `i` only. */
  lemma {:induction false} BitAfterSet(x: word, i: nat, j: nat)
    requires i < 32
    ensures Bit(Union(x, Shifted(i)), j) <==> i == j || Bit(x, j)
  {
    BitOfOr(x, Shifted(i), j);
    BitOfPow2(i, j);
  }

  /** Clearing bit `i` changes bit `i` only. */
  lemma {:induction false} BitAfterClear(x: word, i: nat, j: nat)
    requires i < 32
    ensures Bit(AndNot(x, Shifted(i)), j) <==> i != j && Bit(x, j)
  {
    BitOfAndNot(x, Shifted(i), j);
    BitOfPow2(i, j);
  }
}
