/** Shared vocabulary: results, machine integers, powers of two. */
module Basics {

  datatype Option<+T> = None | Some(value: T)
  {
    function GetOr(default: T): T {
      if Some? then value else default
    }
  }

  datatype Result<+T, +E> = Ok(value: T) | Err(error: E)

  const TWO_31 := 0x8000_0000
  const TWO_32 := 0x1_0000_0000
  const TWO_63 := 0x8000_0000_0000_0000
  const TWO_64 := 0x1_0000_0000_0000_0000

  type byte = x: int | 0 <= x < 256
  type u32 = x: int | 0 <= x < TWO_32
  type u64 = x: int | 0 <= x < TWO_64
  type i32 = x: int | -TWO_31 <= x < TWO_31
  type i64 = x: int | -TWO_63 <= x < TWO_63

  /** A string as its UTF-8 bytes: the program compares, slices and writes strings bytewise. */
  type Text = seq<byte>

  /** The bit pattern of an IEEE 754 double. */
  type F64 = u64

  const NEGATIVE_ZERO: F64 := TWO_63
  const POSITIVE_INFINITY: F64 := 0x7ff0_0000_0000_0000

  /** `x == 0.0`: both zeros, and no NaN. */
  predicate IsZero(x: F64) {
    x == 0 || x == NEGATIVE_ZERO
  }

  /** `x > 0.0`: positive, not zero, not NaN. */
  predicate IsPositive(x: F64) {
    0 < x <= POSITIVE_INFINITY
  }

  predicate InI32(x: int) {
    -TWO_31 <= x < TWO_31
  }

  predicate InI64(x: int) {
    -TWO_63 <= x < TWO_63
  }

  /** Two's complement wrap-around of a release build's `i64` arithmetic. */
  function Wrap(x: int): (r: i64)
    ensures InI64(x) ==> r == x
    ensures (x - r) % TWO_64 == 0
  {
    (x + TWO_63) % TWO_64 - TWO_63
  }

  function WrapAdd(x: i64, y: i64): i64 {
    Wrap(x + y)
  }

  function Min(x: int, y: int): int {
    if x <= y then x else y
  }

  function Max(x: int, y: int): int {
    if x <= y then y else x
  }

  function Pow2(n: nat): (p: nat)
    ensures p >= 1
  {
    if n == 0 then 1 else 2 * Pow2(n - 1)
  }

  lemma {:induction false} Pow2Add(a: nat, b: nat)
    ensures Pow2(a + b) == Pow2(a) * Pow2(b)
  {
    if a != 0 {
      Pow2Add(a - 1, b);
      assert Pow2(a + b) == 2 * Pow2(a - 1 + b);
      assert 2 * (Pow2(a - 1) * Pow2(b)) == (2 * Pow2(a - 1)) * Pow2(b);
    }
  }

  lemma Pow2Double(n: nat)
    ensures Pow2(2 * n) == Pow2(n) * Pow2(n) && Pow2(n + 1) == 2 * Pow2(n)
  {
    Pow2Add(n, n);
  }

  lemma Pow2Four()
    ensures Pow2(4) == 16
  {
  }

  lemma Pow2Values()
    ensures Pow2(7) == 128 && Pow2(8) == 256 && Pow2(16) == 0x1_0000
    ensures Pow2(30) == 0x4000_0000 && Pow2(31) == TWO_31 && Pow2(32) == TWO_32
    ensures Pow2(63) == TWO_63 && Pow2(64) == TWO_64
  {
    hide Pow2;
    Pow2Four();
    Pow2Double(4);
    Pow2Double(7);
    Pow2Double(8);
    Pow2Double(16);
    Pow2Double(30);
    Pow2Double(31);
    Pow2Double(32);
    Pow2Double(63);
  }

  lemma {:induction false} Pow2Monotone(a: nat, b: nat)
    requires a <= b
    ensures Pow2(a) <= Pow2(b)
  {
    if a < b {
      Pow2Monotone(a, b - 1);
    }
  }

  /** Congruent representatives in the `i64` range are equal. */
  lemma WrapCongruent(x: int, y: int, k: int)
    requires x == y + k * TWO_64
    ensures Wrap(x) == Wrap(y)
  {
    var a, b := x + TWO_63, y + TWO_63;
    assert a % TWO_64 == b % TWO_64 by {
      assert a == b + k * TWO_64;
    }
  }

  lemma WrapOfWrap(x: int, y: int)
    ensures Wrap(Wrap(x) + y) == Wrap(x + y) == Wrap(x + Wrap(y))
  {
    var k := (x - Wrap(x)) / TWO_64;
    assert x == Wrap(x) + k * TWO_64;
    WrapCongruent(x + y, Wrap(x) + y, k);
    var j := (y - Wrap(y)) / TWO_64;
    assert y == Wrap(y) + j * TWO_64;
    WrapCongruent(x + y, x + Wrap(y), j);
  }

  /** Wrapping addition is associative, whatever overflows on the way. */
  lemma WrapAddAssociative(x: i64, y: i64, z: i64)
    ensures WrapAdd(WrapAdd(x, y), z) == WrapAdd(x, WrapAdd(y, z))
  {
    hide Wrap;
    WrapOfWrap(x + y, z);
    WrapOfWrap(x, y + z);
    assert x + y + z == x + (y + z);
  }

  /** Floor division against a bound: the two sides of `x >> s <= m`. */
  lemma FloorBelow(x: int, p: int, m: int)
    requires p > 0
    ensures x / p <= m <==> x < (m + 1) * p
  {
    var q := x / p;
    assert x == q * p + x % p;
    if q <= m {
      assert q * p <= m * p by { MulMonotone(q, m, p); }
      assert (m + 1) * p == m * p + p;
    } else {
      assert (m + 1) * p <= q * p by { MulMonotone(m + 1, q, p); }
    }
  }

  lemma MulMonotone(a: int, b: int, p: int)
    requires a <= b && p >= 0
    ensures a * p <= b * p
  {
    assert (b - a) * p >= 0;
    assert b * p == a * p + (b - a) * p;
  }

  lemma DivDivBelow(x: int, a: int, b: int, m: int)
    requires a > 0 && b > 0 && a * b > 0
    ensures (x / a) / b <= m <==> x / (a * b) <= m
  {
    FloorBelow(x / a, b, m);
    FloorBelow(x, a, (m + 1) * b - 1);
    FloorBelow(x, a * b, m);
    assert ((m + 1) * b) * a == (m + 1) * (a * b) by { MulRegroup(m + 1, a, b); }
  }

  lemma MulRegroup(n: int, a: int, b: int)
    ensures (n * b) * a == n * (a * b)
  {
  }

  lemma DivDiv(x: int, a: int, b: int)
    requires a > 0 && b > 0 && a * b > 0
    ensures (x / a) / b == x / (a * b)
  {
    DivDivBelow(x, a, b, (x / a) / b);
    DivDivBelow(x, a, b, x / (a * b));
  }

  lemma Regroup<T>(a: seq<T>, b: seq<T>, c: seq<T>)
    ensures (a + b) + c == a + (b + c)
  {
  }

  lemma TakeSnoc<T>(xs: seq<T>, n: nat)
    requires n < |xs|
    ensures xs[..n + 1] == xs[..n] + [xs[n]]
  {
  }
}
