/**
 Java's 32-bit `int`: its range, the constants `Integer.MIN_VALUE` and
 `Integer.MAX_VALUE`, two's-complement wrap-around of `+` and `-`, and the
 saturating narrowing cast `(int)` applied to an integral `double`.
 */
module JavaInt {

  const MIN_VALUE: int := -0x8000_0000
  const MAX_VALUE: int := 0x7fff_ffff
  /** Number of distinct `int` values, 2^32. */
  const MODULUS: int := 0x1_0000_0000

  type Int32 = x: int | MIN_VALUE <= x <= MAX_VALUE

  /** The `int` whose 32-bit two's-complement pattern is the low 32 bits of
      the mathematical integer `x`. */
  function Wrap(x: int): (r: Int32)
    ensures MIN_VALUE <= x <= MAX_VALUE ==> r == x
  {
    (x - MIN_VALUE) % MODULUS + MIN_VALUE
  }

  /** Java's `a + b` on `int`: the exact sum, brought back into range by one
      multiple of 2^32 when it overflows. */
  function Add(a: Int32, b: Int32): Int32
  {
    var s := a as int + b as int;
    if s > MAX_VALUE then s - MODULUS else if s < MIN_VALUE then s + MODULUS else s
  }

  /** Java's `a - b` on `int`. */
  function Sub(a: Int32, b: Int32): Int32
  {
    var d := a as int - b as int;
    if d > MAX_VALUE then d - MODULUS else if d < MIN_VALUE then d + MODULUS else d
  }

  /** `(int) d` for a `double` `d` holding the integer `x`: values outside the
      `int` range are clamped to the nearest bound. */
  function SaturatingCast(x: int): Int32
  {
    if x < MIN_VALUE then MIN_VALUE else if x > MAX_VALUE then MAX_VALUE else x
  }

  /** Distance of `x` from zero. */
  function Abs(x: int): nat
  {
    if x < 0 then -x else x
  }

  /** The cast picks the `int` nearest to `x`: no `int` `y` lies closer. */
  lemma SaturatingCastNearest(x: int, y: Int32)
    ensures Abs(SaturatingCast(x) - x) <= Abs(y - x)
  {
  }

  /** The cast preserves order: a larger integral value never casts to a
      smaller `int`. */
  lemma SaturatingCastMonotone(x: int, y: int)
    requires x <= y
    ensures SaturatingCast(x) <= SaturatingCast(y)
  {
  }

  /** Adding a multiple of 2^32 does not change a remainder modulo 2^32. */
  lemma ModShift(z: int, k: int)
    ensures (z + MODULUS * k) % MODULUS == z % MODULUS
  {
  }

  /** `Wrap(x)` differs from `x` by a whole multiple of 2^32. */
  lemma WrapIsCongruent(x: int)
    ensures (Wrap(x) - x) % MODULUS == 0
  {
    var q := (x - MIN_VALUE) / MODULUS;
    assert Wrap(x) - x == MODULUS * -q;
    ModShift(0, -q);
  }

  /** Integers congruent modulo 2^32 wrap to the same `int`. */
  lemma WrapCongruent(x: int, y: int)
    requires (x - y) % MODULUS == 0
    ensures Wrap(x) == Wrap(y)
  {
    var k := (x - y) / MODULUS;
    assert x - MIN_VALUE == (y - MIN_VALUE) + MODULUS * k;
    ModShift(y - MIN_VALUE, k);
  }

  /** Java's `+` is addition modulo 2^32: adding the wrapped operands gives
      the wrapped exact sum. */
  lemma AddWraps(x: int, y: int)
    ensures Add(Wrap(x), Wrap(y)) == Wrap(x + y)
  {
    WrapIsCongruent(x);
    WrapIsCongruent(y);
    var s := Wrap(x) as int + Wrap(y) as int;
    var kx := (Wrap(x) - x) / MODULUS;
    var ky := (Wrap(y) - y) / MODULUS;
    assert s - (x + y) == MODULUS * (kx + ky);
    ModShift(0, kx + ky);
    WrapCongruent(s, x + y);
    assert Add(Wrap(x), Wrap(y)) == Wrap(s);
  }

  /** Subtracting either operand from the overflowing `int` sum recovers the
      other operand; subtracting the sum from itself gives 0. */
  lemma AddSubCancel(x: Int32, y: Int32)
    ensures Sub(Add(x, y), y) == x
    ensures Sub(Add(x, y), x) == y
    ensures Sub(Add(x, y), Add(x, y)) == 0
  {
  }
}
