/**
 * Fixed-width integer conventions of the firmware's C code, written out over
 * Dafny's unbounded integers: the ranges of the C types, the conversions the
 * compiler performs on assignment, and C's truncating division.
 */
module Ints {

  type I16 = x: int | -0x8000 <= x <= 0x7FFF
  type U8 = x: int | 0 <= x < 0x100
  type U16 = x: int | 0 <= x < 0x1_0000
  type U32 = x: int | 0 <= x < 0x1_0000_0000

  /** Assignment of an int to an `int16_t`: two's-complement wrap-around. */
  function Wrap16(x: int): (r: I16)
    ensures -0x8000 <= x <= 0x7FFF ==> r == x
  {
    (x + 0x8000) % 0x1_0000 - 0x8000
  }

  /**
   * An `int32_t` result out of range: two's-complement wrap-around, as the
   * Cortex-M0+ multiply and add deliver it (C leaves signed overflow undefined).
   */
  function Wrap32(x: int): (r: int)
    ensures -0x8000_0000 <= r < 0x8000_0000
    ensures -0x8000_0000 <= x < 0x8000_0000 ==> r == x
  {
    (x + 0x8000_0000) % 0x1_0000_0000 - 0x8000_0000
  }

  /** Assignment of an int to a `uint16_t`: reduction modulo 2^16. */
  function ToU16(x: int): (r: U16)
    ensures (r - x) % 0x1_0000 == 0
    ensures 0 <= x < 0x1_0000 ==> r == x
  {
    x % 0x1_0000
  }

  /** Assignment of an int to a `uint8_t`: reduction modulo 2^8, the identity on 0..255. */
  function ToU8(x: int): (r: U8)
    ensures 0 <= x < 0x100 ==> r == x
  {
    if 0 <= x < 0x100 then x else x % 0x100
  }

  /** Assignment of an int to a `uint32_t`: reduction modulo 2^32. */
  function ToU32(x: int): (r: U32)
    ensures (r - x) % 0x1_0000_0000 == 0
    ensures 0 <= x < 0x1_0000_0000 ==> r == x
  {
    x % 0x1_0000_0000
  }

  /** Wrapping twice is wrapping once: `int16_t` arithmetic can be done in int and cast at the end. */
  lemma Wrap16Add(a: int, b: int)
    ensures Wrap16(Wrap16(a) + b) == Wrap16(a + b)
  {
    var k := (a + 0x8000) / 0x1_0000;
    assert Wrap16(a) == a - k * 0x1_0000;
    assert Wrap16(a) + b + 0x8000 == (a + b + 0x8000) - k * 0x1_0000;
  }

  /** C's `/` for a positive divisor: the quotient is truncated toward zero. */
  function TDiv(a: int, b: int): (q: int)
    requires b > 0
    ensures a >= 0 ==> 0 <= a - q * b < b
    ensures a < 0 ==> -b < a - q * b <= 0
    ensures a >= 0 ==> q >= 0
    ensures a <= 0 ==> q <= 0
  {
    var n := if a >= 0 then a else -a;
    EuclidNonneg(n, b);
    MulNeg(n / b, b);
    if a >= 0 then n / b else -(n / b)
  }

  /** Division of a non-negative number: a non-negative quotient and remainder. */
  lemma EuclidNonneg(a: int, b: int)
    requires a >= 0 && b > 0
    ensures a / b >= 0 && 0 <= a - a / b * b < b
  {
    var q, r := a / b, a % b;
    assert a == q * b + r && 0 <= r < b;
    if q < 0 {
      MulLe(1, -q, b);
      MulNeg(q, b);
    }
  }

  /** Euclidean division has one quotient and one remainder. */
  lemma ModUnique(x: int, n: int, q: int, r: int)
    requires n >= 1 && 0 <= r < n && x == q * n + r
    ensures x / n == q && x % n == r
  {
    var q0, r0 := x / n, x % n;
    assert x == q0 * n + r0 && 0 <= r0 < n;
    var d := q - q0;
    assert q * n == q0 * n + d * n;
    assert d * n == r0 - r;
    if d >= 1 {
      assert false;
    } else if d <= -1 {
      assert false;
    }
  }

  /** Incrementing before or after the reduction modulo n agrees. */
  lemma ModSucc(a: int, n: int)
    requires n >= 1
    ensures (a % n + 1) % n == (a + 1) % n
    ensures a % n + 1 < n ==> (a + 1) % n == a % n + 1
    ensures a % n + 1 == n ==> (a + 1) % n == 0
  {
    var q := a / n;
    if a % n + 1 == n {
      ModUnique(a + 1, n, q + 1, 0);
    } else {
      ModUnique(a + 1, n, q, a % n + 1);
    }
    ModUnique(a % n + 1, n, if a % n + 1 == n then 1 else 0, if a % n + 1 == n then 0 else a % n + 1);
  }

  function Abs(x: int): (r: nat)
    ensures r == x || r == -x
  {
    if x < 0 then -x else x
  }

  function Min(a: int, b: int): int { if a <= b then a else b }
  function Max(a: int, b: int): int { if a >= b then a else b }

  /** 2^k, the factor of a left shift by k. */
  function Pow2(k: nat): (r: nat)
    ensures r >= 1
  {
    if k == 0 then 1 else 2 * Pow2(k - 1)
  }

  /** Shifts add: 2^(a+b) = 2^a * 2^b. */
  lemma {:induction false} Pow2Mul(a: nat, b: nat)
    ensures Pow2(a + b) == Pow2(a) * Pow2(b)
    decreases b
  {
    if b > 0 {
      Pow2Mul(a, b - 1);
      assert Pow2(a + b) == 2 * Pow2(a + b - 1);
    }
  }

  /** The shift factors of byte and half-word fields. */
  lemma Pow2Fields()
    ensures Pow2(8) == 0x100 && Pow2(16) == 0x1_0000 && Pow2(24) == 0x100_0000
  {
    assert Pow2(8) == 0x100;
    Pow2Mul(8, 8);
    Pow2Mul(16, 8);
  }

  /** 0 <= k <= n and 0 <= q give k * q <= n * q. */
  lemma MulLe(k: int, n: int, q: int)
    requires 0 <= k <= n && 0 <= q
    ensures k * q <= n * q
  {
    assert n * q == k * q + (n - k) * q;
  }

  /** 0 <= k <= n and q <= 0 give n * q <= k * q <= 0. */
  lemma MulGe(k: int, n: int, q: int)
    requires 0 <= k <= n && q <= 0
    ensures n * q <= k * q <= 0
  {
    assert n * q == k * q + (n - k) * q;
  }

  /** n divides x exactly when it divides -x. */
  lemma ModNeg(x: int, n: int)
    requires n >= 1
    ensures x % n == 0 <==> (-x) % n == 0
  {
    if x % n == 0 {
      ModUnique(-x, n, -(x / n), 0);
    }
    if (-x) % n == 0 {
      ModUnique(x, n, -((-x) / n), 0);
    }
  }

  /** The remainder of C's truncating division is smaller than the divisor and vanishes exactly on multiples. */
  lemma TruncRemainder(d: int, sz: int)
    requires sz >= 1
    ensures Abs(d - TDiv(d, sz) * sz) < sz
    ensures d - TDiv(d, sz) * sz == 0 <==> d % sz == 0
  {
    var q := TDiv(d, sz);
    var rem := d - q * sz;
    if d >= 0 {
      ModUnique(d, sz, q, rem);
    } else {
      MulNeg(q, sz);
      ModUnique(-d, sz, -q, -rem);
      ModNeg(d, sz);
    }
  }

  lemma MulNeg(a: int, b: int)
    ensures (-a) * b == -(a * b)
  {
  }

  /**
   * `x << k` on an unbounded integer, as k doublings. Written recursively, so
   * the solver expands it only as far as a proof needs; ShlIsProduct gives
   * the closed form.
   */
  function Shl(x: int, k: nat): int
    decreases k
  {
    if k == 0 then x else 2 * Shl(x, k - 1)
  }

  lemma {:induction false} ShlIsProduct(x: int, k: nat)
    ensures Shl(x, k) == x * Pow2(k)
    decreases k
  {
    if k > 0 {
      ShlIsProduct(x, k - 1);
      assert 2 * (x * Pow2(k - 1)) == x * (2 * Pow2(k - 1));
    }
  }

  function MulNat(a: int, b: nat): int
    decreases b
  {
    if b == 0 then 0 else MulNat(a, b - 1) + a
  }

  /**
   * The product a * b of two sample-sized operands, as repeated addition.
   * Like Shl it is expanded only on demand, which keeps the products of the
   * audio path out of proofs that do not look at them; MulIsProduct
   * identifies it with `*`.
   */
  function Mul(a: int, b: int): int
  {
    if b >= 0 then MulNat(a, b) else -MulNat(a, -b)
  }

  lemma {:induction false} MulNatIsProduct(a: int, b: nat)
    ensures MulNat(a, b) == a * b
    decreases b
  {
    if b > 0 {
      MulNatIsProduct(a, b - 1);
    }
  }

  lemma MulIsProduct(a: int, b: int)
    ensures Mul(a, b) == a * b
  {
    if b >= 0 {
      MulNatIsProduct(a, b);
    } else {
      MulNatIsProduct(a, -b);
    }
  }

  /** `x - 1` stored back in an `int16_t`: -32768 wraps to 32767. */
  function Dec16(x: I16): (r: I16)
  {
    if x == -0x8000 then 0x7FFF else x - 1
  }

  /** `x + 1` stored back in an `int16_t`: 32767 wraps to -32768. */
  function Inc16(x: I16): (r: I16)
  {
    if x == 0x7FFF then -0x8000 else x + 1
  }

  /** Dec16 and Inc16 are the C increment and decrement of an `int16_t`. */
  lemma StepIsWrap(x: I16)
    ensures Dec16(x) == Wrap16(x - 1) && Inc16(x) == Wrap16(x + 1)
  {
  }
}
