/**
 `fibonacciUsingRecursion`: the naive two-call recursion with base cases 0
 and 1, evaluated in Java `int` arithmetic, and `main`, which builds the
 first `n` terms of the series.
 */
module FibonacciRecursion {
  import opened JavaInt

  /** The Fibonacci numbers over unbounded integers. */
  function Fib(n: nat): nat
  {
    if n < 2 then n else Fib(n - 1) + Fib(n - 2)
  }

  /** `fibonacci(n)` for `n >= 0`; each `+` wraps like Java's `int`
      addition. `FibonacciCall` covers negative arguments. */
  function Fibonacci(n: Int32): Int32
    requires n >= 0
  {
    if n == 0 then 0
    else if n == 1 then 1
    else Add(Fibonacci(n - 1), Fibonacci(n - 2))
  }

  /** In `int` arithmetic the method computes the Fibonacci number modulo 2^32. */
  lemma {:induction false} FibonacciWraps(n: Int32)
    requires n >= 0
    ensures Fibonacci(n) == Wrap(Fib(n))
  {
    if n >= 2 {
      FibonacciWraps(n - 1);
      FibonacciWraps(n - 2);
      WrappedStep(Fibonacci(n), Fibonacci(n - 1), Fibonacci(n - 2), Fib(n), Fib(n - 1), Fib(n - 2));
    }
  }

  /** One step of the recurrence in `int` arithmetic: if the two previous
      terms are the wrapped exact terms, so is their `int` sum. */
  lemma WrappedStep(r: Int32, a: Int32, b: Int32, s: int, x: int, y: int)
    requires a == Wrap(x) && b == Wrap(y) && r == Add(a, b) && s == x + y
    ensures r == Wrap(s)
  {
    AddWraps(x, y);
  }

  /** How a call of `fibonacci` ends. */
  datatype Call = Value(result: Int32) | StackOverflow

  /** A call of `fibonacci(n)` for any `int`. From a negative argument the
      chain of `n - 1` calls counts down to `MIN_VALUE`, wraps to `MAX_VALUE`
      and only then reaches the base case 1: at least 2^31 nested calls (see
      `ChainDepth`), so the stack overflows. Otherwise the result is the
      Fibonacci number modulo 2^32. */
  function FibonacciCall(n: Int32): (c: Call)
    ensures n < 0 <==> c == StackOverflow
    ensures n >= 0 ==> c == Value(Wrap(Fib(n)))
  {
    if n < 0 then StackOverflow
    else
      FibonacciWraps(n);
      Value(Fibonacci(n))
  }

  /** The number of nested calls along the chain of first recursive calls
      `fibonacci(n - 1)`, counting the first, with `n - 1` evaluated in
      wrapping `int` arithmetic; the chain ends at a base case 0 or 1. */
  function ChainDepth(n: Int32): nat
    decreases if n >= 1 then n else n + MODULUS
  {
    if n == 0 || n == 1 then 1 else 1 + ChainDepth(Sub(n, 1))
  }

  /** A positive `n` reaches the base case 1 after `n` calls; a negative `n`
      counts down to `MIN_VALUE`, wraps to `MAX_VALUE` and counts down to 1,
      `n + 2^32` calls. */
  lemma {:induction false} ChainDepthFormula(n: Int32)
    ensures ChainDepth(n) == if n >= 1 then n else if n == 0 then 1 else n + MODULUS
    decreases if n >= 1 then n else n + MODULUS
  {
    if n != 0 && n != 1 {
      ChainDepthFormula(Sub(n, 1));
    }
  }

  /** A call ends in `StackOverflow` exactly when its chain of first calls
      is at least 2^31 calls deep: every negative argument reaches that depth
      and no other does. */
  lemma OverflowsExactlyWhenTooDeep(n: Int32)
    ensures FibonacciCall(n) == StackOverflow <==> ChainDepth(n) >= 0x8000_0000
  {
    ChainDepthFormula(n);
  }


  /** The Fibonacci numbers never decrease. */
  lemma {:induction false} FibMonotone(m: nat, n: nat)
    requires m <= n
    ensures Fib(m) <= Fib(n)
    decreases n
  {
    if m < n {
      FibMonotone(m, n - 1);
    }
  }

  lemma FibAt46And47()
    ensures Fib(46) == 1836311903
    ensures Fib(47) == 2971215073
  {
    assert Fib(2) == 1;
    assert Fib(3) == 2;
    assert Fib(4) == 3;
    assert Fib(5) == 5;
    assert Fib(6) == 8;
    assert Fib(7) == 13;
    assert Fib(8) == 21;
    assert Fib(9) == 34;
    assert Fib(10) == 55;
    assert Fib(11) == 89;
    assert Fib(12) == 144;
    assert Fib(13) == 233;
    assert Fib(14) == 377;
    assert Fib(15) == 610;
    assert Fib(16) == 987;
    assert Fib(17) == 1597;
    assert Fib(18) == 2584;
    assert Fib(19) == 4181;
    assert Fib(20) == 6765;
    assert Fib(21) == 10946;
    assert Fib(22) == 17711;
    assert Fib(23) == 28657;
    assert Fib(24) == 46368;
    assert Fib(25) == 75025;
    assert Fib(26) == 121393;
    assert Fib(27) == 196418;
    assert Fib(28) == 317811;
    assert Fib(29) == 514229;
    assert Fib(30) == 832040;
    assert Fib(31) == 1346269;
    assert Fib(32) == 2178309;
    assert Fib(33) == 3524578;
    assert Fib(34) == 5702887;
    assert Fib(35) == 9227465;
    assert Fib(36) == 14930352;
    assert Fib(37) == 24157817;
    assert Fib(38) == 39088169;
    assert Fib(39) == 63245986;
    assert Fib(40) == 102334155;
    assert Fib(41) == 165580141;
    assert Fib(42) == 267914296;
    assert Fib(43) == 433494437;
    assert Fib(44) == 701408733;
    assert Fib(45) == 1134903170;
    assert Fib(46) == 1836311903;
    assert Fib(47) == 2971215073;
  }

  /** Up to n = 46 the `int` result is the exact Fibonacci number. */
  lemma FibonacciExact(n: Int32)
    requires 0 <= n <= 46
    ensures Fibonacci(n) == Fib(n)
  {
    FibonacciWraps(n);
    FibMonotone(n, 46);
    FibAt46And47();
  }

  /** At n = 47 the sum overflows and the method returns a negative value. */
  lemma FibonacciOverflowsAt47(n: Int32)
    requires n == 47
    ensures Fibonacci(n) == -1323752223
    ensures Fibonacci(n) != Fib(n)
  {
    FibAt46And47();
    var f := Fib(n);
    assert f == 2971215073;
    assert Wrap(f) == -1323752223;
    FibonacciWraps(n);
  }

  /** A series of `fibonacci` results holds the Fibonacci numbers modulo
      2^32, exact up to index 46. */
  lemma SeriesValues(values: seq<Int32>)
    requires |values| <= MAX_VALUE
    requires forall k :: 0 <= k < |values| ==> values[k] == Fibonacci(k)
    ensures forall k :: 0 <= k < |values| ==> values[k] == Wrap(Fib(k))
    ensures forall k :: 0 <= k < |values| && k <= 46 ==> values[k] == Fib(k)
  {
    forall k | 0 <= k < |values|
      ensures values[k] == Wrap(Fib(k))
      ensures k <= 46 ==> values[k] == Fib(k)
    {
      FibonacciWraps(k);
      if k <= 46 {
        FibonacciExact(k);
      }
    }
  }

  /** What `main` prints. */
  datatype Series = InvalidInput | Built(values: seq<Int32>)

  /** `main` after reading `n`: an input below 1 is rejected; otherwise
      `fibArray[i] = fibonacci(i)` for every `i` in `[0, n)`, which is the
      Fibonacci number modulo 2^32 and exactly `Fib(i)` while `i <= 46`. */
  method FibonacciSeries(n: Int32) returns (series: Series)
    ensures n < 1 <==> series == InvalidInput
    ensures series.Built? ==> |series.values| == n
    ensures series.Built? ==> forall i :: 0 <= i < n ==> series.values[i] == Wrap(Fib(i))
    ensures series.Built? ==> forall i :: 0 <= i < n && i <= 46 ==> series.values[i] == Fib(i)
  {
    if n < 1 {
      return InvalidInput;
    }
    var fibArray: seq<Int32> := [];
    var i: Int32 := 0;
    while i < n
      invariant 0 <= i <= n
      invariant |fibArray| == i
      invariant forall k {:trigger fibArray[k]} :: 0 <= k < i ==> fibArray[k] == Fibonacci(k)
    {
      var next := Fibonacci(i);
      fibArray := fibArray + [next];
      i := i + 1;
    }
    SeriesValues(fibArray);
    series := Built(fibArray);
  }
}
