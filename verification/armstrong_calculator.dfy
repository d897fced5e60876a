/**
 `ArmstrongCalculator.isNumberArmstrong`: a positive number is an Armstrong
 number when the sum of its decimal digits, each raised to the number of
 digits, equals the number. `Math.log10` and `Math.pow` become the integer
 functions `DigitCount` and `Pow`; the running sum is a Java `int`.
 */
module ArmstrongCalculator {
  import opened JavaInt

  function Pow(b: nat, e: nat): nat
  {
    if e == 0 then 1 else b * Pow(b, e - 1)
  }

  /** The decimal digits of `n`, least significant first; none for 0. */
  function Digits(n: nat): (ds: seq<nat>)
    ensures forall k :: 0 <= k < |ds| ==> ds[k] < 10
  {
    if n == 0 then [] else [n % 10] + Digits(n / 10)
  }

  /** `(int) (Math.log10(n) + 1)`: the number of decimal digits of a positive
      `n`, the `d` with 10^(d-1) <= n < 10^d. */
  function DigitCount(n: nat): (d: nat)
    requires n > 0
    ensures d >= 1
    ensures Pow(10, d - 1) <= n < Pow(10, d)
  {
    if n < 10 then 1 else 1 + DigitCount(n / 10)
  }

  /** The digit count is the number of digits the loop visits. */
  lemma {:induction false} DigitCountIsLength(n: nat)
    requires n > 0
    ensures |Digits(n)| == DigitCount(n)
  {
    if n >= 10 {
      DigitCountIsLength(n / 10);
    }
  }

  /** Sum of `d^e` over the digits `ds`. */
  function PowerSum(ds: seq<nat>, e: nat): nat
  {
    if |ds| == 0 then 0 else Pow(ds[0], e) + PowerSum(ds[1..], e)
  }

  /** The Armstrong property, on unbounded integers: a positive number equals
      the sum of its digits raised to its digit count; a non-positive input
      qualifies only when it is 0, because the sum of no digits is 0. */
  predicate IsArmstrong(n: int)
  {
    if n > 0 then PowerSum(Digits(n), DigitCount(n)) == n else n == 0
  }

  /** `isNumberArmstrong`. The `int` sum wraps on overflow and each
      `(int) Math.pow(digit, digitsCount)` saturates; whenever the true digit
      power sum fits in an `int` (every input below 10^8 does) the answer is
      exactly the Armstrong property. Inputs `<= 0` give `number == 0`. */
  method IsNumberArmstrong(number: Int32) returns (r: bool)
    ensures number <= 0 ==> (r <==> number == 0)
    ensures number > 0 && PowerSum(Digits(number), DigitCount(number)) <= MAX_VALUE ==>
              (r <==> IsArmstrong(number))
  {
    var sum: Int32 := 0;
    if number > 0 {
      var digitsCount := DigitCount(number);
      var n := number;
      ghost var trueSum := 0;
      ghost var total := PowerSum(Digits(number), digitsCount);
      while n > 0
        invariant 0 <= n && 0 <= trueSum
        invariant trueSum + PowerSum(Digits(n), digitsCount) == total
        invariant total <= MAX_VALUE ==> sum == trueSum
      {
        var digit := n % 10;
        assert Digits(n) == [digit] + Digits(n / 10);
        assert PowerSum(Digits(n), digitsCount) == Pow(digit, digitsCount) + PowerSum(Digits(n / 10), digitsCount) by {
          assert (Digits(n))[1..] == Digits(n / 10);
        }
        sum := Add(sum, SaturatingCast(Pow(digit, digitsCount)));
        trueSum := trueSum + Pow(digit, digitsCount);
        n := n / 10;
      }
    }
    r := sum == number;
  }

  /** Every single-digit positive number is an Armstrong number. */
  lemma SingleDigitIsArmstrong(n: int)
    requires 1 <= n <= 9
    ensures IsArmstrong(n)
  {
    assert Digits(n) == [n];
    assert DigitCount(n) == 1;
    assert Pow(n, 1) == n * Pow(n, 0) == n;
    assert PowerSum([n], 1) == Pow(n, 1) + PowerSum([], 1) by {
      assert [n][1..] == [];
    }
  }

  /** Inputs below 10^8 have a digit power sum that fits in an `int`, so for
      them `IsNumberArmstrong` decides the Armstrong property exactly. */
  lemma {:induction false} SmallSumFits(n: nat)
    requires 0 < n < 100_000_000
    ensures PowerSum(Digits(n), DigitCount(n)) <= MAX_VALUE
  {
    var e := DigitCount(n);
    DigitCountIsLength(n);
    assert e <= 8 by {
      if e > 8 {
        PowMonotone(10, 8, e - 1);
      }
    }
    PowerSumBound(Digits(n), e);
    PowMonotone(9, e, 8);
    assert Pow(9, 8) == 43046721;
    MulMonotone(e, 8, Pow(9, e));
    MulMonotone(Pow(9, e), Pow(9, 8), 8);
  }

  /** Multiplying by a natural number preserves `<=`. */
  lemma {:induction false} MulMonotone(x: nat, y: nat, z: nat)
    requires x <= y
    ensures x * z <= y * z
    decreases z
  {
    if z > 0 {
      MulMonotone(x, y, z - 1);
      assert x * z == x * (z - 1) + x;
      assert y * z == y * (z - 1) + y;
    }
  }

  /** Each digit contributes at most `9^e`. */
  lemma {:induction false} PowerSumBound(ds: seq<nat>, e: nat)
    requires forall k :: 0 <= k < |ds| ==> ds[k] < 10
    ensures PowerSum(ds, e) <= |ds| * Pow(9, e)
  {
    if |ds| > 0 {
      var top := Pow(9, e);
      PowerSumBound(ds[1..], e);
      PowBaseMonotone(ds[0], 9, e);
      assert PowerSum(ds, e) <= top + (|ds| - 1) * top;
      assert top + (|ds| - 1) * top == |ds| * top;
    }
  }

  /** `b^e` is monotone in the base. */
  lemma {:induction false} PowBaseMonotone(a: nat, b: nat, e: nat)
    requires a <= b
    ensures Pow(a, e) <= Pow(b, e)
  {
    if e > 0 {
      PowBaseMonotone(a, b, e - 1);
      MulMonotone(a, b, Pow(a, e - 1));
      MulMonotone(Pow(a, e - 1), Pow(b, e - 1), b);
      assert a * Pow(a, e - 1) <= b * Pow(a, e - 1);
      assert Pow(a, e - 1) * b <= Pow(b, e - 1) * b;
    }
  }

  /** `b^e` is monotone in the exponent for `b >= 1`. */
  lemma {:induction false} PowMonotone(b: nat, e1: nat, e2: nat)
    requires b >= 1 && e1 <= e2
    ensures Pow(b, e1) <= Pow(b, e2)
    decreases e2
  {
    if e1 < e2 {
      PowMonotone(b, e1, e2 - 1);
      MulMonotone(1, b, Pow(b, e2 - 1));
      assert Pow(b, e2) == b * Pow(b, e2 - 1);
    }
  }

  /** 153 = 1^3 + 5^3 + 3^3 is an Armstrong number. */
  lemma Armstrong153()
    ensures IsArmstrong(153)
  {
    assert Digits(153) == [3, 5, 1] by {
      assert Digits(1) == [1];
      assert Digits(15) == [5, 1];
    }
    assert DigitCount(153) == 3;
    assert PowerSum([3, 5, 1], 3) == 153 by {
      assert Pow(3, 3) == 27 && Pow(5, 3) == 125 && Pow(1, 3) == 1;
      assert PowerSum([1], 3) == 1 by { assert [1][1..] == []; }
      assert PowerSum([5, 1], 3) == 126 by { assert [5, 1][1..] == [1]; }
      assert [3, 5, 1][1..] == [5, 1];
    }
  }

  /** 10 is not: 1^2 + 0^2 = 1. Neither is any negative input. */
  lemma NotArmstrong(n: int)
    requires n == 10 || n < 0
    ensures !IsArmstrong(n)
  {
    if n == 10 {
      assert Digits(n) == [0, 1] by {
        assert Digits(1) == [1];
      }
      assert DigitCount(n) == 2;
      assert PowerSum([0, 1], 2) == 1 by {
        assert [0, 1][1..] == [1];
        assert [1][1..] == [];
      }
    }
  }
}
