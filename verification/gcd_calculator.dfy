/**
 `GCDCalculator.findGCD`: a brute-force greatest-common-divisor search that
 tries every candidate from `min(a, b)` down to 1, compared with Euclid's
 algorithm as an independent reference.
 */
module GcdCalculator {
  import opened JavaInt

  /** `d` is a positive divisor of `n`. */
  predicate Divides(d: int, n: int)
  {
    d > 0 && n % d == 0
  }

  /** Java's `Math.min`. */
  function MathMin(a: int, b: int): int
  {
    if a < b then a else b
  }

  /** Euclid's algorithm on naturals. */
  function Euclid(a: nat, b: nat): nat
    decreases b
  {
    if b == 0 then a else Euclid(b, a % b)
  }

  /** A positive divisor of a positive number is at most that number. */
  lemma DivisorBounded(d: int, n: int)
    requires Divides(d, n) && n > 0
    ensures d <= n
  {
  }

  /** `d * t` grows with `t` for positive `d`. */
  lemma {:induction false} MulAtLeast(d: int, t: int)
    requires d > 0 && t >= 1
    ensures d * t >= d
    decreases t
  {
    if t > 1 {
      MulAtLeast(d, t - 1);
      assert d * t == d * (t - 1) + d;
    }
  }

  /** Euclidean division is unique: quotient and remainder are determined. */
  lemma ModUnique(m: int, d: int, q: int, r: int)
    requires d > 0 && 0 <= r < d && m == d * q + r
    ensures m / d == q && m % d == r
  {
    var q' := m / d;
    var r' := m % d;
    assert m == d * q' + r';
    assert d * (q - q') == r' - r;
    if q - q' >= 1 {
      MulAtLeast(d, q - q');
    } else if q' - q >= 1 {
      MulAtLeast(d, q' - q);
    }
  }

  /** A multiple of `d` leaves no remainder. */
  lemma MultipleMod(d: int, k: int)
    requires d > 0
    ensures (d * k) % d == 0
  {
    ModUnique(d * k, d, k, 0);
  }

  /** A common divisor of `x` and `y` divides `x * q + y`. */
  lemma DividesCombination(d: int, x: int, y: int, q: int)
    requires Divides(d, x) && Divides(d, y)
    ensures Divides(d, x * q + y)
  {
    var i := x / d;
    var j := y / d;
    assert x == d * i;
    assert y == d * j;
    assert x * q + y == d * (i * q + j);
    MultipleMod(d, i * q + j);
  }

  /** Euclid's result is a common divisor of both arguments. */
  lemma {:induction false} EuclidDividesBoth(a: nat, b: nat)
    requires a > 0 || b > 0
    ensures Divides(Euclid(a, b), a) && Divides(Euclid(a, b), b)
    decreases b
  {
    if b == 0 {
      MultipleMod(a, 1);
      MultipleMod(a, 0);
    } else {
      EuclidDividesBoth(b, a % b);
      var g := Euclid(b, a % b);
      assert a == b * (a / b) + a % b;
      DividesCombination(g, b, a % b, a / b);
    }
  }

  /** Every common divisor of both arguments divides Euclid's result. */
  lemma {:induction false} EuclidGreatest(a: nat, b: nat, d: int)
    requires Divides(d, a) && Divides(d, b)
    ensures Divides(d, Euclid(a, b))
    decreases b
  {
    if b != 0 {
      assert a % b == a + b * -(a / b);
      DividesCombination(d, b, a, -(a / b));
      EuclidGreatest(b, a % b, d);
    }
  }

  /** Euclid's algorithm is symmetric in its arguments. */
  lemma EuclidSymmetric(a: nat, b: nat)
    ensures Euclid(a, b) == Euclid(b, a)
  {
    if a < b {
      ModUnique(a, b, 0, a);
      assert Euclid(a, b) == Euclid(b, a % b);
    } else if b < a {
      ModUnique(b, a, 0, b);
      assert Euclid(b, a) == Euclid(a, b % a);
    }
  }

  /** `findGCD`. Non-positive arguments give 0. For positive arguments the
      inner loop stops at the first common divisor counting down from
      `min(a, b)`, which it always reaches by 1, so the outer `while` body runs
      at most once and returns the greatest common divisor, the value
      Euclid's algorithm computes. */
  method FindGcd(a: Int32, b: Int32) returns (r: Int32)
    ensures a <= 0 || b <= 0 ==> r == 0
    ensures a > 0 && b > 0 ==> 1 <= r <= MathMin(a, b) && Divides(r, a) && Divides(r, b)
    ensures a > 0 && b > 0 ==> forall k :: r < k <= MathMin(a, b) ==> !(Divides(k, a) && Divides(k, b))
    ensures a > 0 && b > 0 ==> r == Euclid(a, b) && r == Euclid(b, a)
  {
    if a > 0 && b > 0 {
      var m := MathMin(a, b);
      var i := m;
      while i >= 1 && !(a % i == 0 && b % i == 0)
        invariant 1 <= i <= m
        invariant forall k :: i < k <= m ==> !(Divides(k, a) && Divides(k, b))
      {
        i := i - 1;
      }
      // `i` is the greatest common divisor; Euclid's result is another
      // common divisor, bounded by `m` and divisible by `i`.
      var g := Euclid(a, b);
      EuclidDividesBoth(a, b);
      EuclidGreatest(a, b, i);
      DivisorBounded(i, g);
      DivisorBounded(g, a);
      DivisorBounded(g, b);
      EuclidSymmetric(a, b);
      return i;
    }
    return 0;
  }

  /** `findGCD` is symmetric in its arguments. */
  method FindGcdSymmetric(a: Int32, b: Int32) returns (ab: Int32, ba: Int32)
    ensures ab == ba
  {
    ab := FindGcd(a, b);
    ba := FindGcd(b, a);
  }
}
