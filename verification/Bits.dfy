/** The bit operators of C on unsigned values, and what the source uses them for. */
module Bits {

  function Pow2(k: nat): (p: nat)
    ensures p >= 1
  {
    if k == 0 then 1 else 2 * Pow2(k - 1)
  }

  function Or(a: nat, b: nat): nat {
    if a == 0 then b else if b == 0 then a
    else 2 * Or(a / 2, b / 2) + (if a % 2 == 1 || b % 2 == 1 then 1 else 0)
  }

  function And(a: nat, b: nat): nat {
    if a == 0 || b == 0 then 0
    else 2 * And(a / 2, b / 2) + (if a % 2 == 1 && b % 2 == 1 then 1 else 0)
  }

  /** One step of either operator, without the shortcuts for zero. */
  lemma OrStep(a: nat, b: nat)
    ensures Or(a, b) == 2 * Or(a / 2, b / 2) + (if a % 2 == 1 || b % 2 == 1 then 1 else 0)
  {}

  lemma AndStep(a: nat, b: nat)
    ensures And(a, b) == 2 * And(a / 2, b / 2) + (if a % 2 == 1 && b % 2 == 1 then 1 else 0)
  {}

  lemma {:induction false} OrCommutes(a: nat, b: nat)
    ensures Or(a, b) == Or(b, a)
  {
    if a != 0 && b != 0 { OrCommutes(a / 2, b / 2); }
  }

  lemma {:induction false} OrAtLeast(a: nat, b: nat)
    ensures Or(a, b) >= a && Or(a, b) >= b
  {
    if a != 0 && b != 0 { OrAtLeast(a / 2, b / 2); }
  }

  /** Values without a common bit: the bitwise or is the sum. */
  lemma {:induction false} OrAdds(k: nat, high: nat, low: nat)
    requires low < Pow2(k)
    ensures Or(Pow2(k) * high, low) == Pow2(k) * high + low
  {
    if k > 0 {
      var h := Pow2(k - 1) * high;
      assert Pow2(k) * high == 2 * h;
      OrAdds(k - 1, high, low / 2);
      OrStep(2 * h, low);
    }
  }

  /** Masking with 2^k - 1 keeps the value modulo 2^k. */
  lemma {:induction false} AndMask(k: nat, a: nat)
    ensures And(a, Pow2(k) - 1) == a % Pow2(k)
  {
    hide And;
    if k == 0 {
      AndZero(a);
    } else {
      var p := Pow2(k - 1);
      assert Pow2(k) - 1 == 2 * (p - 1) + 1;
      AndMask(k - 1, a / 2);
      AndStep(a, 2 * (p - 1) + 1);
      ModDouble(a, p);
    }
  }

  lemma AndZero(a: nat)
    ensures And(a, 0) == 0
  {}

  lemma ModDouble(a: nat, p: nat)
    requires p >= 1
    ensures a % (2 * p) == 2 * ((a / 2) % p) + a % 2
  {
    var q, r := (a / 2) / p, (a / 2) % p;
    assert a / 2 == q * p + r;
    assert a == q * (2 * p) + (2 * r + a % 2) by {
      assert a == 2 * (a / 2) + a % 2;
      assert 2 * (q * p) == q * (2 * p);
    }
    ModUnique(a, 2 * p, q, 2 * r + a % 2);
  }

  lemma ModUnique(a: int, n: nat, q: int, r: int)
    requires n > 0 && 0 <= r < n && a == q * n + r
    ensures a / n == q && a % n == r
  {
    var q', r' := a / n, a % n;
    assert a == q' * n + r';
    assert (q - q') * n == r' - r;
    if q > q' {
      MulAtLeast(q - q', n);
    } else if q < q' {
      MulAtLeast(q' - q, n);
    }
  }

  lemma MulAtLeast(k: int, n: nat)
    requires k >= 1
    ensures k * n >= n
  {
    assert k * n == (k - 1) * n + n;
  }

  // ----- rounding up to a power of two -----

  lemma {:induction false} Pow2Adds(a: nat, b: nat)
    ensures Pow2(a + b) == Pow2(a) * Pow2(b)
  {
    if a > 0 {
      Pow2Adds(a - 1, b);
      assert Pow2(a) * Pow2(b) == 2 * (Pow2(a - 1) * Pow2(b));
    }
  }

  lemma {:induction false} Pow2Monotone(a: nat, b: nat)
    requires a <= b
    ensures Pow2(a) <= Pow2(b)
  {
    if a < b { Pow2Monotone(a, b - 1); }
  }

  lemma {:induction false} OrBound(k: nat, a: nat, b: nat)
    requires a < Pow2(k) && b < Pow2(k)
    ensures Or(a, b) < Pow2(k)
  {
    if k > 0 {
      OrBound(k - 1, a / 2, b / 2);
      OrStep(a, b);
    }
  }

  /** The bits of `a` from k up are untouched by a value below 2^k. */
  lemma {:induction false} OrLow(k: nat, high: nat, a: nat, b: nat)
    requires a < Pow2(k) && b < Pow2(k)
    ensures Or(Pow2(k) * high + a, b) == Pow2(k) * high + Or(a, b)
  {
    if k > 0 {
      var h := Pow2(k - 1) * high;
      assert Pow2(k) * high == 2 * h;
      OrLow(k - 1, high, a / 2, b / 2);
      OrStep(2 * h + a, b);
      OrStep(a, b);
    }
  }

  /** `a` has n bits and the topmost j of them are set. */
  predicate TopOnes(a: nat, n: nat, j: nat) {
    Pow2(n) - Pow2(if j < n then n - j else 0) <= a < Pow2(n)
  }

  lemma MulMonotone(a: int, b: int, p: nat)
    requires a <= b
    ensures a * p <= b * p
  {
    assert b * p == a * p + (b - a) * p;
    if a < b { MulAtLeast(b - a, p); }
  }

  lemma DivAtLeast(a: nat, p: nat, c: int)
    requires p > 0 && c * p <= a
    ensures a / p >= c
  {
    if a / p < c { MulMonotone(a / p + 1, c, p); }
  }

  lemma DivBelow(a: nat, p: nat, c: nat)
    requires p > 0 && a < c * p
    ensures a / p < c
  {
    if a / p >= c { MulMonotone(c, a / p, p); }
  }

  lemma DivOfRun(a: nat, p: nat, q: nat, r: nat)
    requires p > 0 && q <= p * r && p * q - q <= a
    ensures a / p >= q - r
  {
    assert (q - r) * p == p * q - p * r;
    DivAtLeast(a, p, q - r);
  }

  /** Shifting down a value of n bits whose topmost j bits are set, j < n. */
  lemma ShiftedRun(a: nat, n: nat, j: nat)
    requires j < n && TopOnes(a, n, j)
    ensures Pow2(n - j) - Pow2(if 2 * j < n then n - 2 * j else 0) <= a / Pow2(j) < Pow2(n - j)
  {
    var p, q := Pow2(j), Pow2(n - j);
    var r := Pow2(if 2 * j < n then n - 2 * j else 0);
    Pow2Adds(j, n - j);
    DivBelow(a, p, q);
    if 2 * j < n {
      Pow2Adds(j, n - 2 * j);
    } else {
      Pow2Monotone(n - j, j);
    }
    DivOfRun(a, p, q, r);
  }

  lemma DivNotMore(a: nat, p: nat)
    requires p > 0
    ensures a / p <= a
  {
    MulMonotone(1, p, a);
    DivBelow(a, p, a + 1);
  }

  lemma OrOfRun(a: nat, b: nat, m: nat, p: nat)
    requires p > 0 && p * Pow2(m) - Pow2(m) <= a < p * Pow2(m) && b < Pow2(m)
    ensures Or(a, b) >= p * Pow2(m) - Pow2(m) + b
  {
    hide Or, Pow2;
    var q := Pow2(m);
    var high := q * (p - 1);
    assert high == p * q - q;
    OrLow(m, p - 1, a - high, b);
    OrAtLeast(a - high, b);
  }

  /** Or-ing a value with itself shifted by j doubles the run of leading ones. */
  lemma Smear(a: nat, n: nat, j: nat)
    requires TopOnes(a, n, j)
    ensures TopOnes(Or(a, a / Pow2(j)), n, 2 * j)
  {
    hide Or;
    var p := Pow2(j);
    var b := a / p;
    DivNotMore(a, p);
    OrBound(n, a, b);
    OrAtLeast(a, b);
    if j < n {
      Pow2Adds(j, n - j);
      ShiftedRun(a, n, j);
      OrOfRun(a, b, n - j, p);
    }
  }

  /** `pow2gt` of cJSON.c, for positive arguments. */
  function Pow2gt(x: nat): nat
    requires x > 0
  {
    var x1 := x - 1;
    var x2 := Or(x1, x1 / 0x2);
    var x3 := Or(x2, x2 / 0x4);
    var x4 := Or(x3, x3 / 0x10);
    var x5 := Or(x4, x4 / 0x100);
    var x6 := Or(x5, x5 / 0x1_0000);
    x6 + 1
  }

  /** It is the least power of two that is not below its argument. */
  lemma Pow2gtIsLeast(x: nat, k: nat)
    requires 0 < x <= Pow2(k) && k <= 32 && (k > 0 ==> Pow2(k - 1) < x)
    ensures Pow2gt(x) == Pow2(k)
  {
    if k > 0 {
      assert Pow2(1) == 0x2 && Pow2(2) == 0x4;
      assert Pow2(4) == 0x10 by { Pow2Adds(2, 2); }
      assert Pow2(8) == 0x100 by { Pow2Adds(4, 4); }
      assert Pow2(16) == 0x1_0000 by { Pow2Adds(8, 8); }
      hide Or;
      var x1 := x - 1;
      Smear(x1, k, 1);
      var x2 := Or(x1, x1 / 0x2);
      Smear(x2, k, 2);
      var x3 := Or(x2, x2 / 0x4);
      Smear(x3, k, 4);
      var x4 := Or(x3, x3 / 0x10);
      Smear(x4, k, 8);
      var x5 := Or(x4, x4 / 0x100);
      Smear(x5, k, 16);
      assert Pow2(0) == 1;
    }
  }

  /** Every positive number lies in exactly one such interval. */
  lemma {:induction false} BitLength(x: nat, top: nat) returns (k: nat)
    requires 0 < x <= Pow2(top)
    ensures k <= top && x <= Pow2(k) && (k > 0 ==> Pow2(k - 1) < x)
  {
    k := top;
    if k > 0 && x <= Pow2(k - 1) {
      k := BitLength(x, top - 1);
    }
  }
}
