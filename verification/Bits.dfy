/** Bitwise operations on natural numbers, defined bit by bit, and the
    arithmetic they perform on prefix masks. */
module Bits {
  import opened Prelude

  function Pow2(n: nat): (p: nat)
    ensures p >= 1
  {
    if n == 0 then 1 else 2 * Pow2(n - 1)
  }

  /** `x & y` */
  function And(x: nat, y: nat): nat {
    if x == 0 || y == 0 then 0 else (x % 2) * (y % 2) + 2 * And(x / 2, y / 2)
  }

  /** `x | y` */
  function Or(x: nat, y: nat): nat {
    if x == 0 then y else if y == 0 then x
    else (if x % 2 == 1 || y % 2 == 1 then 1 else 0) + 2 * Or(x / 2, y / 2)
  }

  /** `!x` on a 32-bit word */
  function Not32(x: u32): u32 {
    0xFFFF_FFFF - x
  }

  /** `x << k` on a 32-bit word */
  function Shl32(x: u32, k: nat): u32 {
    (x * Pow2(k)) % 0x1_0000_0000
  }

  /** `x >> k` */
  function Shr(x: nat, k: nat): nat {
    if k == 0 then x else Shr(x / 2, k - 1)
  }

  lemma {:induction false} Pow2Sum(a: nat, b: nat)
    ensures Pow2(a + b) == Pow2(a) * Pow2(b)
  {
    if a > 0 {
      Pow2Sum(a - 1, b);
    }
  }

  lemma Pow2Values()
    ensures Pow2(8) == 0x100 && Pow2(16) == 0x1_0000 && Pow2(32) == 0x1_0000_0000
  {
    Pow2Sum(4, 4);
    Pow2Sum(8, 8);
    Pow2Sum(16, 16);
  }

  lemma MultipleBound(d: int, m: int)
    requires m > 0
    ensures d >= 1 ==> d * m >= m
    ensures d <= -1 ==> d * m <= -m
  {
    if d >= 1 {
      assert d * m == m + (d - 1) * m;
    } else if d <= -1 {
      assert d * m == -m + (d + 1) * m;
    }
  }

  lemma DivModUnique(a: int, q: int, r: int, m: int)
    requires 0 <= r < m && a == q * m + r
    ensures a / m == q && a % m == r
  {
    var q', r' := a / m, a % m;
    assert a == q' * m + r';
    assert (q' - q) * m == r - r';
    MultipleBound(q' - q, m);
  }

  lemma HalfSplit(x: nat, m: nat)
    requires m > 0
    ensures x == (x / 2 / m) * (2 * m) + (2 * ((x / 2) % m) + x % 2)
  {
    var h := x / 2;
    assert h == (h / m) * m + h % m;
    assert (h / m) * (2 * m) == 2 * ((h / m) * m);
  }

  /** Halving a number drops its last bit from the remainder by a power of two. */
  lemma HalfMod(x: nat, k: nat)
    requires k > 0
    ensures x % Pow2(k) == 2 * ((x / 2) % Pow2(k - 1)) + x % 2
  {
    var m := Pow2(k - 1);
    HalfSplit(x, m);
    DivModUnique(x, x / 2 / m, 2 * ((x / 2) % m) + x % 2, 2 * m);
  }

  /** Halving a number does not change its quotient by the halved power of two. */
  lemma HalfDiv(x: nat, k: nat)
    requires k > 0
    ensures x / Pow2(k) == x / 2 / Pow2(k - 1)
  {
    var m := Pow2(k - 1);
    HalfSplit(x, m);
    DivModUnique(x, x / 2 / m, 2 * ((x / 2) % m) + x % 2, 2 * m);
  }

  lemma {:induction false} ShrValue(x: nat, k: nat)
    ensures Shr(x, k) == x / Pow2(k)
  {
    if k > 0 {
      ShrValue(x / 2, k - 1);
      HalfDiv(x, k);
    }
  }

  lemma AndOdd(x: nat, y: nat)
    ensures And(x, 2 * y + 1) == x % 2 + 2 * And(x / 2, y)
  {
    assert (2 * y + 1) % 2 == 1 && (2 * y + 1) / 2 == y;
  }

  lemma AndLowStep(x: nat, m: nat)
    requires m >= 1 && And(x / 2, m - 1) == (x / 2) % m
    ensures And(x, 2 * m - 1) == x % 2 + 2 * ((x / 2) % m)
  {
    AndOdd(x, m - 1);
  }

  /** Masking with `n` low ones is the remainder by `2^n`. */
  lemma {:induction false} AndLow(x: nat, n: nat)
    ensures And(x, Pow2(n) - 1) == x % Pow2(n)
  {
    if n > 0 {
      AndLow(x / 2, n - 1);
      AndLowStep(x, Pow2(n - 1));
      HalfMod(x, n);
    }
  }

  lemma Pow2Monotone(k: nat, w: nat)
    requires k <= w
    ensures Pow2(k) <= Pow2(w)
    decreases w
  {
    if k < w {
      Pow2Monotone(k, w - 1);
    }
  }

  /** Clearing the `k` low bits of a `w`-bit word subtracts the remainder by `2^k`. */
  lemma {:induction false} AndHigh(x: nat, w: nat, k: nat)
    requires x < Pow2(w) && k <= w
    ensures Pow2(k) <= Pow2(w)
    ensures And(x, Pow2(w) - Pow2(k)) == x - x % Pow2(k)
  {
    Pow2Monotone(k, w);
    if k == 0 {
      AndLow(x, w);
      DivModUnique(x, 0, x, Pow2(w));
      DivModUnique(x, x, 0, 1);
    } else {
      AndHigh(x / 2, w - 1, k - 1);
      var y := Pow2(w - 1) - Pow2(k - 1);
      calc {
        And(x, Pow2(w) - Pow2(k));
        { assert Pow2(w) - Pow2(k) == 2 * y; }
        And(x, 2 * y);
        { AndEven(x, y); }
        2 * And(x / 2, y);
        2 * (x / 2 - (x / 2) % Pow2(k - 1));
        { HalfMod(x, k); }
        x - x % Pow2(k);
      }
    }
  }

  lemma AndEven(x: nat, y: nat)
    ensures And(x, 2 * y) == 2 * And(x / 2, y)
  {
    assert (2 * y) % 2 == 0 && (2 * y) / 2 == y;
  }

  lemma OrOdd(x: nat, y: nat)
    ensures Or(2 * x, 2 * y + 1) == 1 + 2 * Or(x, y)
  {
    assert (2 * x) / 2 == x && (2 * y + 1) / 2 == y && (2 * y + 1) % 2 == 1;
  }

  lemma OrLowStep(b: nat, y: nat)
    requires Or(b, y) == b + y
    ensures Or(2 * b, 2 * y + 1) == 2 * b + (2 * y + 1)
  {
    OrOdd(b, y);
  }

  lemma DoubleFactor(a: nat, m: nat)
    ensures a * (2 * m) == 2 * (a * m)
  {
  }

  /** Setting the `k` low bits of a multiple of `2^k` adds `2^k - 1`. */
  lemma {:induction false} OrLow(a: nat, k: nat)
    ensures Or(a * Pow2(k), Pow2(k) - 1) == a * Pow2(k) + (Pow2(k) - 1)
  {
    if k > 0 {
      var m := Pow2(k - 1);
      OrLow(a, k - 1);
      OrLowStep(a * m, m - 1);
      DoubleFactor(a, m);
      assert Pow2(k) - 1 == 2 * (m - 1) + 1;
    }
  }

  /** Doubling both operands doubles the result. */
  lemma BitsDouble(x: nat, y: nat)
    ensures And(2 * x, 2 * y) == 2 * And(x, y) && Or(2 * x, 2 * y) == 2 * Or(x, y)
  {
    assert (2 * x) / 2 == x && (2 * y) / 2 == y && (2 * x) % 2 == 0 && (2 * y) % 2 == 0;
  }

  lemma BitsTimes4(x: nat, y: nat)
    ensures And(4 * x, 4 * y) == 4 * And(x, y) && Or(4 * x, 4 * y) == 4 * Or(x, y)
  {
    BitsDouble(x, y);
    BitsDouble(2 * x, 2 * y);
  }

  lemma BitsTimes16(x: nat, y: nat)
    ensures And(16 * x, 16 * y) == 16 * And(x, y) && Or(16 * x, 16 * y) == 16 * Or(x, y)
  {
    BitsTimes4(x, y);
    BitsTimes4(4 * x, 4 * y);
  }

  lemma BitsTimes64(x: nat, y: nat)
    ensures And(64 * x, 64 * y) == 64 * And(x, y) && Or(64 * x, 64 * y) == 64 * Or(x, y)
  {
    BitsTimes16(x, y);
    BitsTimes4(16 * x, 16 * y);
  }

  lemma TwoBits(m: nat, o: nat)
    requires m <= 1 && o <= 1
    ensures Or(2 * m, o) == 2 * m + o && And(2 * m + o, 2) == 2 * m && And(2 * m + o, 1) == o
  {
  }

  lemma CombineTopBits(m: nat, o: nat)
    requires m <= 1 && o <= 1
    ensures Or(64 * (2 * m), 64 * o) == 64 * (2 * m + o)
  {
    TwoBits(m, o);
    BitsTimes64(2 * m, o);
  }

  lemma TestTopBits(m: nat, o: nat)
    requires m <= 1 && o <= 1
    ensures And(64 * (2 * m + o), 64 * 2) == 64 * (2 * m)
    ensures And(64 * (2 * m + o), 64 * 1) == 64 * o
  {
    TwoBits(m, o);
    BitsTimes64(2 * m + o, 2);
    BitsTimes64(2 * m + o, 1);
  }

  /** Combining and testing the bits 7 and 6 of a byte. */
  lemma TopBits(m: nat, o: nat)
    requires m <= 1 && o <= 1
    ensures Or(m * 0x80, o * 0x40) == m * 0x80 + o * 0x40
    ensures And(m * 0x80 + o * 0x40, 0x80) == m * 0x80
    ensures And(m * 0x80 + o * 0x40, 0x40) == o * 0x40
  {
    CombineTopBits(m, o);
    TestTopBits(m, o);
    assert 64 * (2 * m) == m * 0x80 && 64 * o == o * 0x40 && 64 * (2 * m + o) == m * 0x80 + o * 0x40;
  }
}
