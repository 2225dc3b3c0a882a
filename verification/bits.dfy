/**
 * Java `int` bit operations, stated on non-negative integers.
 *
 * A Java `int` whose bits matter (an ARGB pixel, a packed colour) is held as
 * the unsigned reading of its 32-bit pattern, a value in [0, 2^32). `And` and
 * `Or` are defined bit by bit from the least significant end, so they are the
 * bitwise operators themselves rather than arithmetic stand-ins; the lemmas
 * below derive the arithmetic meaning of the masks the pixel code uses.
 */
module Bits {

  /** The unsigned reading of a Java `int` bit pattern. */
  type Int32Bits = x: int | 0 <= x < 0x1_0000_0000

  /** The value of a Java `byte` after `0xff & b`. */
  type Byte = x: int | 0 <= x < 256

  function Pow2(n: nat): (r: nat)
    ensures r >= 1
  {
    if n == 0 then 1 else 2 * Pow2(n - 1)
  }

  /** Bitwise AND (`&`). */
  function And(x: nat, y: nat): nat
    decreases x
  {
    if x == 0 || y == 0 then 0
    else 2 * And(x / 2, y / 2) + (if x % 2 == 1 && y % 2 == 1 then 1 else 0)
  }

  /** Bitwise OR (`|`). */
  function Or(x: nat, y: nat): nat
    decreases x + y
  {
    if x == 0 then y
    else if y == 0 then x
    else 2 * Or(x / 2, y / 2) + (if x % 2 == 1 || y % 2 == 1 then 1 else 0)
  }

  /** `x << k`, for values that do not overflow 32 bits. */
  function ShiftLeft(x: nat, k: nat): nat {
    x * Pow2(k)
  }

  /** `x >> k` on a non-negative value (arithmetic and logical shift agree). */
  function ShiftRight(x: nat, k: nat): nat {
    var q := x / Pow2(k);
    DivNonNegative(x, Pow2(k));
    q
  }

  lemma DivNonNegative(x: nat, d: nat)
    requires d > 0
    ensures x / d >= 0
  {
  }

  lemma Pow2Values()
    ensures Pow2(1) == 2 && Pow2(2) == 4 && Pow2(6) == 64 && Pow2(8) == 256
    ensures Pow2(10) == 1024 && Pow2(16) == 65536 && Pow2(24) == 16777216
  {
    assert Pow2(2) == 4;
    assert Pow2(4) == 16;
    assert Pow2(6) == 64;
    assert Pow2(8) == 256;
    assert Pow2(10) == 1024;
    assert Pow2(12) == 4096;
    assert Pow2(14) == 16384;
    assert Pow2(16) == 65536;
    assert Pow2(18) == 262144;
    assert Pow2(20) == 1048576;
    assert Pow2(22) == 4194304;
  }

  /** Quotient and remainder are determined by x == d * q + r with 0 <= r < d. */
  lemma DivModUnique(x: int, d: int, q: int, r: int)
    requires d > 0 && 0 <= r < d && x == d * q + r
    ensures x / d == q && x % d == r
  {
    var k := q - x / d;
    assert d * k == x % d - r;
    MulAwayFromZero(d, k);
  }

  /** A non-zero multiple of d is at least d away from zero. */
  lemma MulAwayFromZero(d: int, k: int)
    requires d > 0
    ensures k >= 1 ==> d * k >= d
    ensures k <= -1 ==> d * k <= -d
  {
  }

  /** Multiplying by 2^n is doubling a multiple of 2^(n-1). */
  lemma MulPow2Step(a: nat, n: nat)
    requires n >= 1
    ensures a * Pow2(n) == 2 * (a * Pow2(n - 1))
  {
    var p := Pow2(n - 1);
    assert Pow2(n) == 2 * p;
    assert a * (2 * p) == 2 * (a * p);
  }

  /** An AND with an odd mask keeps the last bit of x. */
  lemma AndOdd(x: nat, m: nat)
    requires m % 2 == 1
    ensures And(x, m) == 2 * And(x / 2, m / 2) + x % 2
  {
    if x == 0 {
      assert And(x / 2, m / 2) == 0;
    }
  }

  /** Masking with 2^n - 1 keeps the low n bits: the part below 2^n of hi * 2^n + lo. */
  lemma {:induction false} AndLow(hi: nat, lo: nat, n: nat)
    requires lo < Pow2(n)
    ensures And(hi * Pow2(n) + lo, Pow2(n) - 1) == lo
  {
    if n == 0 {
      assert Pow2(n) == 1 && lo == 0;
      assert hi * Pow2(n) + lo == hi;
    } else {
      var p := Pow2(n - 1);
      var t: nat := hi * p;
      MulPow2Step(hi, n);
      var x, m := hi * Pow2(n) + lo, Pow2(n) - 1;
      AndOdd(x, m);
      assert x / 2 == t + lo / 2 && x % 2 == lo % 2 && m / 2 == p - 1;
      AndLow(hi, lo / 2, n - 1);
    }
  }

  /** An AND with an even mask clears the last bit of x. */
  lemma AndEven(x: nat, m: nat)
    requires m % 2 == 0
    ensures And(x, m) == 2 * And(x / 2, m / 2)
  {
    if x == 0 || m == 0 {
      assert And(x / 2, m / 2) == 0;
    }
  }

  /**
   * Masking with 0xff << k keeps the byte at bits k..k+7: the `mid` part of
   * (hi * 256 + mid) * 2^k + lo.
   */
  lemma {:induction false} AndField(hi: nat, mid: nat, lo: nat, k: nat)
    requires mid < 256 && lo < Pow2(k)
    ensures And((hi * 256 + mid) * Pow2(k) + lo, 255 * Pow2(k)) == mid * Pow2(k)
  {
    var w := hi * 256 + mid;
    if k == 0 {
      assert Pow2(k) == 1 && lo == 0;
      assert Pow2(8) == 256 by { Pow2Values(); }
      assert w * Pow2(k) + lo == hi * Pow2(8) + mid;
      AndLow(hi, mid, 8);
    } else {
      var p := Pow2(k - 1);
      var t: nat := w * p;
      MulPow2Step(w, k);
      MulPow2Step(255, k);
      MulPow2Step(mid, k);
      var x, m := w * Pow2(k) + lo, 255 * Pow2(k);
      AndEven(x, m);
      assert x / 2 == t + lo / 2 && m / 2 == 255 * p;
      AndField(hi, mid, lo / 2, k - 1);
    }
  }

  /** An OR of an even value with y takes its last bit from y. */
  lemma OrEven(x: nat, y: nat)
    requires x % 2 == 0
    ensures Or(x, y) == 2 * Or(x / 2, y / 2) + y % 2
  {
    if x == 0 {
      assert Or(x / 2, y / 2) == y / 2;
    } else if y == 0 {
      assert Or(x / 2, y / 2) == x / 2;
    }
  }

  /** OR of a value shifted left by k with a value below 2^k is their sum. */
  lemma {:induction false} OrDisjoint(a: nat, k: nat, b: nat)
    requires b < Pow2(k)
    ensures Or(a * Pow2(k), b) == a * Pow2(k) + b
  {
    if k == 0 {
      assert Pow2(k) == 1 && b == 0;
      assert Or(a * Pow2(k), b) == a * Pow2(k);
    } else {
      var p := Pow2(k - 1);
      var t: nat := a * p;
      MulPow2Step(a, k);
      var x := a * Pow2(k);
      OrEven(x, b);
      assert x / 2 == t;
      OrDisjoint(a, k - 1, b / 2);
    }
  }

  /** Java's `Math.abs` on an `int`: the most negative value is its own absolute value. */
  function JavaAbs(x: int): int
    requires -0x8000_0000 <= x < 0x8000_0000
  {
    if x == -0x8000_0000 then x else if x < 0 then -x else x
  }

  /** Two's complement wrap-around of Java `int` arithmetic. */
  function Wrap32(x: int): (r: int)
    ensures -0x8000_0000 <= r < 0x8000_0000
    ensures (x - r) % 0x1_0000_0000 == 0
  {
    (x + 0x8000_0000) % 0x1_0000_0000 - 0x8000_0000
  }

  /** A value already in the `int` range is unchanged by wrap-around. */
  lemma Wrap32InRange(x: int)
    requires -0x8000_0000 <= x < 0x8000_0000
    ensures Wrap32(x) == x
  {
    DivModUnique(x + 0x8000_0000, 0x1_0000_0000, 0, x + 0x8000_0000);
  }

  /** Java's `%`: the remainder takes the sign of the dividend. */
  function JavaRem(a: int, b: int): (r: int)
    requires b != 0
    ensures a >= 0 ==> r == a % b
  {
    var m := (if a < 0 then -a else a) % (if b < 0 then -b else b);
    if a < 0 then -m else m
  }
}
