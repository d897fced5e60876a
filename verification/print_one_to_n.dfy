/**
 `Print1ToNUsingBackTracking.recursionUsingBacktracking`: recurse on `i - 1`
 first, then print `i`, so the numbers come out in ascending order on the
 way back. The printed lines become the returned sequence.
 */
module PrintOneToN {
  import opened JavaInt

  /** How a call ends: normally, having printed `lines`, or with a
      `StackOverflowError` from a recursion too deep for the JVM stack. */
  datatype Run = Printed(lines: seq<int>) | StackOverflow

  /** `recursionUsingBacktracking(i, n)`. From a negative `i` the `int`
      subtraction `i - 1` counts down to `MIN_VALUE`, wraps to `MAX_VALUE` and
      only then counts down to the base case `i == 0`: more than 2^31 nested
      calls (see `Depth`), so the stack overflows before any line is printed.
      Otherwise the lines are 1, 2, ..., i, whatever `n` is. */
  function RecursionUsingBacktracking(i: Int32, n: Int32): (r: Run)
    ensures i < 0 <==> r == StackOverflow
    ensures r.Printed? ==> |r.lines| == i
    ensures r.Printed? ==> forall k :: 0 <= k < |r.lines| ==> r.lines[k] == k + 1
    decreases if i < 0 then 0 else i
  {
    if i < 0 then StackOverflow
    else if i == 0 then Printed([])
    else
      match RecursionUsingBacktracking(i - 1, n)
      case Printed(lines) => Printed(lines + [i])
      case StackOverflow => StackOverflow
  }

  /** The number of nested calls `recursionUsingBacktracking(i, n)` makes,
      counting the first, with `i - 1` evaluated in wrapping `int` arithmetic. */
  function Depth(i: Int32): nat
    decreases if i >= 0 then i else i + MODULUS
  {
    if i == 0 then 1 else 1 + Depth(Sub(i, 1))
  }

  /** A non-negative `i` needs `i + 1` calls; a negative one first wraps
      around through all 2^32 `int` values below and above it. */
  lemma {:induction false} DepthFormula(i: Int32)
    ensures Depth(i) == if i >= 0 then i + 1 else i + MODULUS + 1
    decreases if i >= 0 then i else i + MODULUS
  {
    if i != 0 {
      DepthFormula(Sub(i, 1));
    }
  }

  /** The call ends in `StackOverflow` exactly when it
      needs more than 2^31 nested calls. Every non-negative `i` stays within
      that bound and every negative `i` exceeds it. */
  lemma OverflowsExactlyWhenTooDeep(i: Int32, n: Int32)
    ensures RecursionUsingBacktracking(i, n) == StackOverflow <==> Depth(i) > 0x8000_0000
  {
    DepthFormula(i);
  }

  /** The second argument has no effect on the outcome. */
  lemma {:induction false} IgnoresN(i: Int32, n: Int32, m: Int32)
    ensures RecursionUsingBacktracking(i, n) == RecursionUsingBacktracking(i, m)
    decreases if i < 0 then 0 else i
  {
    if i > 0 {
      IgnoresN(i - 1, n, m);
    }
  }
}
