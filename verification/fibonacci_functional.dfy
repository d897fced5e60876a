/**
 `fibonacciUsingFunctionalRecursion`: the variant whose single base case
 `N <= 1` returns `N` itself, so it is defined (and terminates) for every
 `int`, negative ones included.
 */
module FibonacciFunctional {
  import opened JavaInt
  import FibonacciRecursion

  /** `fibonacci(N)`, with Java's wrapping `int` addition. */
  function Fibonacci(n: Int32): Int32
    decreases n
  {
    if n <= 1 then n else Add(Fibonacci(n - 1), Fibonacci(n - 2))
  }

  /** On non-negative arguments both Java definitions agree, although their
      base cases are written differently. */
  lemma {:induction false} AgreesWithRecursion(n: Int32)
    requires n >= 0
    ensures Fibonacci(n) == FibonacciRecursion.Fibonacci(n)
  {
    if n >= 2 {
      AgreesWithRecursion(n - 1);
      AgreesWithRecursion(n - 2);
    }
  }

  /** On negative arguments the variants part ways: this one returns its
      argument, while the two-base-case variant overflows the stack. */
  lemma NegativeArguments(n: Int32)
    requires n < 0
    ensures Fibonacci(n) == n
    ensures FibonacciRecursion.FibonacciCall(n) == FibonacciRecursion.StackOverflow
  {
  }

  /** On non-negative arguments the result is the Fibonacci number modulo
      2^32. */
  lemma WrapsFib(n: Int32)
    requires n >= 0
    ensures Fibonacci(n) == Wrap(FibonacciRecursion.Fib(n))
  {
    AgreesWithRecursion(n);
    FibonacciRecursion.FibonacciWraps(n);
  }

  /** `main` evaluates `fibonacci(10)`, which is 55. */
  lemma MainPrints55(n: Int32)
    requires n == 10
    ensures Fibonacci(n) == 55
  {
    AgreesWithRecursion(n);
    FibonacciRecursion.FibonacciExact(n);
    FibonacciRecursion.FibAt46And47();
  }
}
