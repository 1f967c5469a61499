/** Laws of integer division with a divisor that is not a constant. */
module Arithmetic {

  lemma MulDistributes(a: int, x: int, y: int)
    ensures a * (x + y) == a * x + a * y
  {
  }

  lemma MulAssociates(a: int, b: int, c: int)
    ensures a * (b * c) == a * b * c
  {
  }

  lemma MulMonotone(a: nat, x: int, y: int)
    requires x <= y
    ensures a * x <= a * y
  {
  }

  /** Quotient and remainder are the only numbers that divide with rest. */
  lemma RemainderIs(x: int, d: int, q: int, r: int)
    requires d > 0 && 0 <= r < d && x == d * q + r
    ensures x / d == q && x % d == r
  {
    var p := x / d;
    assert x == d * p + x % d;
    if p < q {
      MulMonotone(d, p + 1, q);
      MulDistributes(d, p, 1);
    } else if q < p {
      MulMonotone(d, q + 1, p);
      MulDistributes(d, q, 1);
    }
  }

  /** Adding a multiple of the divisor does not change the remainder. */
  lemma AddMultiple(x: int, d: int, k: int)
    requires d > 0
    ensures (x + d * k) % d == x % d
  {
    MulDistributes(d, x / d, k);
    RemainderIs(x + d * k, d, x / d + k, x % d);
  }

  /** Remainders can be taken before subtracting. */
  lemma SubtractFromRemainder(x: int, y: int, d: int)
    requires d > 0
    ensures (x % d - y) % d == (x - y) % d
  {
    AddMultiple(x % d - y, d, x / d);
  }

  /** Subtracting in two pieces, with the remainder taken in between. */
  lemma SubtractInPieces(x: int, mid: int, first: int, second: int, d: int)
    requires d > 0 && mid % d == (x - first) % d
    ensures (mid - second) % d == (x - (first + second)) % d
  {
    SubtractFromRemainder(mid, second, d);
    SubtractFromRemainder(x - first, second, d);
  }

  /** Subtracting keeps the remainder exactly when a multiple of the divisor is subtracted. */
  lemma SameRemainderExactly(x: int, y: int, d: int)
    requires d > 0
    ensures (x - y) % d == x % d <==> y % d == 0
  {
    if y % d == 0 {
      AddMultiple(x, d, -(y / d));
    }
    if (x - y) % d == x % d {
      MulDistributes(d, x / d, -((x - y) / d));
      RemainderIs(y, d, x / d - (x - y) / d, 0);
    }
  }

  /** A remainder modulo a multiple of `d` keeps the remainder modulo `d`. */
  lemma RemainderOfRemainder(x: int, d: int, k: int)
    requires d > 0 && k > 0 && d * k > 0
    ensures x % (d * k) % d == x % d
  {
    var m := d * k;
    MulAssociates(d, k, x / m);
    RemainderStep(x, d, m, k * (x / m));
  }

  lemma RemainderStep(x: int, d: int, m: int, p: int)
    requires d > 0 && m > 0 && m * (x / m) == d * p
    ensures x % m % d == x % d
  {
    assert x == m * (x / m) + x % m;
    AddMultiple(x % m, d, p);
  }

  /** Dividing twice is dividing by the product. */
  lemma DivideTwice(x: nat, a: nat, b: nat)
    requires a > 0 && b > 0 && a * b > 0
    ensures x / a / b == x / (a * b)
  {
    var q := x / a;
    var p := q / b;
    var rest := q % b;
    MulDistributes(a, b * p, rest);
    MulAssociates(a, b, p);
    MulMonotone(a, rest, b - 1);
    MulDistributes(a, b, -1);
    MulMonotone(a, 0, rest);
    RemainderIs(x, a * b, p, a * rest + x % a);
  }

  lemma QuotientIsZero(n: nat, d: nat)
    requires 0 < d
    ensures n / d == 0 <==> n < d
  {
    QuotientAtLeast(n, d, 1);
  }

  /** `q` copies of `d` fit into `x` exactly when the quotient is at least `q`. */
  lemma QuotientAtLeast(x: nat, d: nat, q: nat)
    requires d > 0
    ensures x / d >= q <==> d * q <= x
  {
    var p := x / d;
    assert x == d * p + x % d;
    if p >= q {
      MulMonotone(d, q, p);
    } else {
      MulMonotone(d, p + 1, q);
      MulDistributes(d, p, 1);
    }
  }

  /** The quotient grows exactly at the multiples of the divisor. */
  lemma QuotientStep(n: nat, d: nat)
    requires n > 0 && d > 0
    ensures n / d == (n - 1) / d + if n % d == 0 then 1 else 0
  {
    var q := (n - 1) / d;
    var r := (n - 1) % d;
    assert n - 1 == d * q + r;
    MulDistributes(d, q, 1);
    if r == d - 1 {
      RemainderIs(n, d, q + 1, 0);
    } else {
      RemainderIs(n, d, q, r + 1);
    }
  }

  /** Taking something away leaves the quotient as it is exactly when the remainder covers it. */
  lemma QuotientUnchanged(x: nat, less: nat, d: nat)
    requires d > 0 && less <= x
    ensures (x - less) / d == x / d <==> x % d >= less
  {
    if x % d >= less {
      RemainderIs(x - less, d, x / d, x % d - less);
    } else {
      QuotientAtLeast(x - less, d, x / d);
    }
  }
}
