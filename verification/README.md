# Java exercise algorithms in Dafny

A Dafny model of the sequential exercises in a small Java teaching
repository, with proofs of what they compute. The exercises are:

- **Array scans.** Largest element, second largest and second smallest, each
  found by a single pass seeded with `Integer.MIN_VALUE` or
  `Integer.MAX_VALUE`.
- **GCD by countdown.** The greatest common divisor, found by counting down
  from `min(a, b)`.
- **Divisor listing.** The divisors of a number, listed by a loop bounded by
  `number / 2`.
- **Armstrong test.** The Armstrong-number test, using the digit count and
  digit powers.
- **Recursion exercises:**
  - two Fibonacci definitions, and the series `main` builds from one of them;
  - a recursive palindrome check over the UTF-16 code units of a `String`;
  - printing 1..n on the way back from the recursion;
  - an in-place recursive "reversal" that exchanges pairs with the add/subtract
    trick.

Java `int` is modelled in module `JavaInt`:
- the subset type `Int32`;
- `Add` and `Sub` with two's-complement wrap-around;
- `Wrap`, the low-32-bit reading of an unbounded integer;
- `SaturatingCast`, for `(int)` applied to a `double`.

Every `int` overflow that changes a result is written out. Examples:
- `fibonacci(47)` is negative.
- The add/subtract swap still exchanges values whose sum overflows.
- From a negative argument, `i - 1` in `recursionUsingBacktracking` and
  `n - 1` in `fibonacci` count down to `MIN_VALUE` and wrap to `MAX_VALUE`
  before they reach a base case, so the recursion needs at least 2^31
  nested calls.

Output is modelled as a returned value:
- Printed lines become a result sequence or a `Report`.
- Exceptions become outcome constructors: `IndexOutOfBounds` for an array or
  string index, `StackOverflow` for a recursion from a negative argument.
  That recursion needs at least 2^31 nested calls, as `PrintOneToN.Depth`
  and `FibonacciRecursion.ChainDepth` count them. This is the one place
  where the JVM's stack limit is modelled.
- An exception thrown part-way through the array recursion carries the
  array's contents at the throw, so swaps already done are kept.

Every exercise has an independent specification to be compared against.
Most are reference definitions:
- `Extremes.Max` and `Extremes.Min`;
- Euclid's algorithm;
- the mathematical Fibonacci numbers `Fib`;
- the `IsArmstrong` predicate over unbounded integers;
- `Sequences.Reverse`, the string or array read backwards;
- `MirrorSwapped`, the array with a range of mirrored pairs exchanged.

`printDivisors`, `recursionUsingBacktracking` and `swapValues` are instead
specified by declarative contracts:
- `printDivisors`: exactly the divisors in a range, ascending.
- `recursionUsingBacktracking`: exactly the lines 1, ..., i.
- `swapValues`: the two elements exchanged.

The scans and the `main` reporting keep their quirks:
- The reversal stops one pair early.
- The divisor loop leaves out `number / 2`.
- A self-swap zeroes the element.
- The second largest cannot be told apart from its sentinel. For example,
  `{MIN_VALUE, 5}` is reported as "not present" even though its second
  largest element is `MIN_VALUE`. `ReportSecondLargest` states exactly when
  this happens.

## Model

| member | source | states |
|---|---|---|
| JavaInt.AddWraps | src/recursion/fibonacciUsingRecursion.java:26 | Java's `+` on `int` is addition modulo 2^32: adding the wrapped operands gives the wrapped exact sum |
| JavaInt.AddSubCancel | src/recursion/ReverseArrayUsingRecursion.java:20-22 | in wrapping `int` arithmetic, subtracting either operand from the possibly overflowed sum gives back the other operand, and subtracting the sum from itself gives 0 |
| JavaInt.WrapIsCongruent | src/recursion/fibonacciUsingRecursion.java:26 | the stored `int` differs from the exact value by a whole multiple of 2^32 |
| JavaInt.Add | src/recursion/fibonacciUsingRecursion.java:26 | Java's `int` `+`; its contract is carried by `AddWraps` (addition modulo 2^32) and `AddSubCancel` |
| JavaInt.Sub | src/recursion/ReverseArrayUsingRecursion.java:21-22 | Java's `int` `-`; its contract is carried by `AddSubCancel`, which undoes an overflowing `+` |
| JavaInt.SaturatingCastNearest | src/armstrong/ArmstrongCalculator.java:14 | `(int)` of an integral `double` yields the `int` nearest to it: no `int` lies closer |
| JavaInt.SaturatingCastMonotone | src/armstrong/ArmstrongCalculator.java:14 | `(int)` of integral `double`s preserves their order |
| LargestInArray.FindLargestInArray | src/arrays/findLargestNumberInArray.java:11-19 | an empty array gives `MIN_VALUE`; otherwise the result is an element of the array, no element exceeds it, and it equals the reference maximum; the array is not modified |
| LargestInArray.LargestDemo | src/arrays/findLargestNumberInArray.java:4-8 | the demo array's largest value is 37464 |
| SecondLargestInArray.FindSecondLargest | src/arrays/SecondLargestInArray.java:25-36 | the result is the greatest element strictly below the maximum, or `MIN_VALUE` when no element is below the maximum (empty or all-equal arrays) |
| SecondLargestInArray.FindSecondSmallestElement | src/arrays/SecondLargestInArray.java:38-49 | the result is the least element strictly above the minimum, or `MAX_VALUE` when there is none |
| SecondLargestInArray.SecondLargestUnique | src/arrays/SecondLargestInArray.java:25-36 | the second-largest specification admits at most one value, so it fixes the scan's result completely |
| SecondLargestInArray.SecondSmallestUnique | src/arrays/SecondLargestInArray.java:38-49 | the same for the second smallest |
| SecondLargestInArray.SecondLargestSentinel | src/arrays/SecondLargestInArray.java:12-16 | the result equals the sentinel `MIN_VALUE` exactly when every element is the maximum or is `MIN_VALUE` itself |
| SecondLargestInArray.SecondSmallestSentinel | src/arrays/SecondLargestInArray.java:18-22 | the result equals `MAX_VALUE` exactly when every element is the minimum or is `MAX_VALUE` itself |
| SecondLargestInArray.ReportSecondLargest | src/arrays/SecondLargestInArray.java:11-16 | "not present" is printed exactly when every element is the maximum or `MIN_VALUE`; otherwise the printed value is the second largest |
| SecondLargestInArray.ReportSecondSmallest | src/arrays/SecondLargestInArray.java:17-22 | "not present" is printed exactly when every element is the minimum or `MAX_VALUE`; otherwise the printed value is the second smallest |
| SecondLargestInArray.SecondExtremesDemo | src/arrays/SecondLargestInArray.java:7-22 | for the demo array `main` prints second largest 434 and second smallest 2 |
| SecondLargestInArray.OnesAndTwosDemo | src/arrays/SecondLargestInArray.java:9 | eight 1s followed by six 2s have second largest 1 |
| SecondLargestInArray.AllTwosDemo | src/arrays/SecondLargestInArray.java:10 | fifteen 2s have no second largest |
| GcdCalculator.FindGcd | src/gcd/GCDCalculator.java:5-14 | non-positive arguments give 0; positive arguments give a common divisor between 1 and `min(a, b)` with no larger common divisor up to `min(a, b)`, equal to Euclid's result in either argument order |
| GcdCalculator.FindGcdSymmetric | src/gcd/GCDCalculator.java:5-14 | `findGCD(a, b) == findGCD(b, a)` for all `int` arguments |
| GcdCalculator.EuclidDividesBoth | src/gcd/GCDCalculator.java:21 | Euclid's algorithm yields a common divisor of its arguments |
| GcdCalculator.EuclidGreatest | src/gcd/GCDCalculator.java:21 | every common divisor divides Euclid's result |
| DivisorsPrinter.DivisorsFrom | src/divisors/DivisorsPrinter.java:12-15 | the loop from `i` lists exactly the divisors in `[i, number / 2)`, strictly ascending |
| DivisorsPrinter.PrintDivisors | src/divisors/DivisorsPrinter.java:10-17 | nothing for `number <= 0`; otherwise exactly the divisors of `number` in `[1, number / 2)`, strictly ascending |
| DivisorsPrinter.DivisorsExamples | src/divisors/DivisorsPrinter.java:4-8 | `main`'s 21 prints 1, 3, 7; 6 prints only 1, 2 |
| DivisorsPrinter.SkipsHalf | src/divisors/DivisorsPrinter.java:12 | for every even positive number, `number / 2` divides it but is not printed |
| DivisorsPrinter.ProperDivisors | src/divisors/DivisorsPrinter.java:10-17 | with the bound `i <= number / 2`, the output is exactly the divisors below `number`, ascending |
| ArmstrongCalculator.DigitCount | src/armstrong/ArmstrongCalculator.java:10 | `(int) (Math.log10(n) + 1)` is the `d` with 10^(d-1) <= n < 10^d |
| ArmstrongCalculator.DigitCountIsLength | src/armstrong/ArmstrongCalculator.java:10-16 | the digit count equals the number of digits the loop visits |
| ArmstrongCalculator.IsNumberArmstrong | src/armstrong/ArmstrongCalculator.java:4-20 | inputs `<= 0` give true exactly for 0; for a positive input whose digit power sum fits in an `int`, the answer is whether the number equals the sum of its digits raised to its digit count |
| ArmstrongCalculator.SmallSumFits | src/armstrong/ArmstrongCalculator.java:12-16 | below 10^8 the digit power sum never leaves the `int` range, so the answer above is exact there |
| ArmstrongCalculator.SingleDigitIsArmstrong | src/armstrong/ArmstrongCalculator.java:4-20 | every number 1..9 is an Armstrong number |
| ArmstrongCalculator.Armstrong153 | src/armstrong/ArmstrongCalculator.java:4-20 | 153 = 1^3 + 5^3 + 3^3 is an Armstrong number |
| ArmstrongCalculator.NotArmstrong | src/armstrong/ArmstrongCalculator.java:4-20 | 10 and every negative number are not |
| FibonacciRecursion.Fibonacci | src/recursion/fibonacciUsingRecursion.java:23-27 | `fibonacci(n)` for `n >= 0` with wrapping `+`; its contract is carried by `FibonacciWraps` |
| FibonacciRecursion.FibonacciWraps | src/recursion/fibonacciUsingRecursion.java:23-27 | for `n >= 0`, `fibonacci(n)` is the Fibonacci number modulo 2^32 |
| FibonacciRecursion.FibonacciCall | src/recursion/fibonacciUsingRecursion.java:23-27 | a negative argument ends in `StackOverflow`, any other yields the Fibonacci number modulo 2^32 |
| FibonacciRecursion.ChainDepthFormula | src/recursion/fibonacciUsingRecursion.java:24-26 | with wrapping `n - 1`, the chain of first calls from `n >= 1` is `n` calls deep, from 0 one call, and from a negative `n` it wraps past `MIN_VALUE` and is `n + 2^32` calls deep |
| FibonacciRecursion.OverflowsExactlyWhenTooDeep | src/recursion/fibonacciUsingRecursion.java:23-27 | the call ends in `StackOverflow` exactly when its chain of first calls is at least 2^31 calls deep |
| FibonacciRecursion.FibonacciExact | src/recursion/fibonacciUsingRecursion.java:23-27 | up to `n = 46` the result is the exact Fibonacci number |
| FibonacciRecursion.FibonacciOverflowsAt47 | src/recursion/fibonacciUsingRecursion.java:23-27 | `fibonacci(47)` overflows to -1323752223 |
| FibonacciRecursion.FibonacciSeries | src/recursion/fibonacciUsingRecursion.java:12-19 | an input below 1 is rejected; otherwise `n` terms, term `i` the Fibonacci number modulo 2^32 and exact while `i <= 46` |
| FibonacciFunctional.Fibonacci | src/recursion/fibonacciUsingfunctionalRecursion.java:6-13 | `fibonacci(N)` with the single base case `N <= 1`; its contract is carried by `AgreesWithRecursion`, `WrapsFib` and `NegativeArguments` |
| FibonacciFunctional.AgreesWithRecursion | src/recursion/fibonacciUsingfunctionalRecursion.java:6-13 | for `N >= 0` the single-base-case variant agrees with the two-base-case variant |
| FibonacciFunctional.WrapsFib | src/recursion/fibonacciUsingfunctionalRecursion.java:6-13 | for `N >= 0` the result is the Fibonacci number modulo 2^32 |
| FibonacciFunctional.NegativeArguments | src/recursion/fibonacciUsingfunctionalRecursion.java:9-11 | a negative `N` is returned unchanged, where the two-base-case variant overflows the stack after its `n - 1` chain wraps past `MIN_VALUE` |
| FibonacciFunctional.MainPrints55 | src/recursion/fibonacciUsingfunctionalRecursion.java:15-19 | `main` prints 55 |
| Palindrome.CheckPalindrome | src/recursion/CheckPalindromeUsingRecursion.java:7-19 | over the UTF-16 code units of the string: a negative start index throws; otherwise the verdict holds exactly when every position from the start index to the middle matches its mirror position |
| Palindrome.FromStartMeansReverse | src/recursion/CheckPalindromeUsingRecursion.java:25 | started at 0, the verdict is whether the code-unit sequence equals its reverse |
| Palindrome.SurrogatePairIsNotMirrored | src/recursion/CheckPalindromeUsingRecursion.java:14 | "a", U+1F600, "a" is judged not a palindrome, because the two halves of the emoji's surrogate pair are compared with each other |
| Palindrome.ShortStringsArePalindromes | src/recursion/CheckPalindromeUsingRecursion.java:9-12 | strings of length 0 or 1 are palindromes for any non-negative start |
| Palindrome.Calls | src/recursion/CheckPalindromeUsingRecursion.java:7-19 | the recursion depth is at least 1 and at most one more than the number of pairs left to compare |
| PrintOneToN.RecursionUsingBacktracking | src/recursion/Print1ToNUsingBackTracking.java:7-14 | a negative `i` overflows the stack before printing anything; otherwise the lines are exactly 1, 2, ..., i in ascending order |
| PrintOneToN.DepthFormula | src/recursion/Print1ToNUsingBackTracking.java:10-12 | with wrapping `i - 1`, a call from `i >= 0` is `i + 1` calls deep, and a call from a negative `i` is `i + 2^32 + 1` calls deep |
| PrintOneToN.OverflowsExactlyWhenTooDeep | src/recursion/Print1ToNUsingBackTracking.java:7-14 | the call ends in `StackOverflow` exactly when it needs more than 2^31 nested calls |
| PrintOneToN.IgnoresN | src/recursion/Print1ToNUsingBackTracking.java:7-14 | the second argument has no effect on the outcome |
| ReverseArray.ReverseArrayUsingRecursion | src/recursion/ReverseArrayUsingRecursion.java:6-17 | the recursion itself, a throw carrying the array's contents at that point; its contract is carried by `ReversalFrom`, `ReturnsOnlyFromBelowBase`, `ShortArraysThrow` and `SwapsSurviveTheThrow` |
| ReverseArray.ReverseFromMain | src/recursion/ReverseArrayUsingRecursion.java:28 | `main`'s call from index 0; its contract is carried by `ReversalFromZero` and `NotAFullReversal` |
| ReverseArray.SwapValues | src/recursion/ReverseArrayUsingRecursion.java:19-23 | distinct in-bounds indices are exchanged even when the sum overflows; equal indices zero the element; an out-of-bounds index throws before anything is written, `startIndex` checked first |
| ReverseArray.ReversalFrom | src/recursion/ReverseArrayUsingRecursion.java:6-17 | started at a mirrored pair at or below `length / 2 - 1`, the run returns normally and exchanges exactly the mirrored pairs up to, but not including, `length / 2 - 1` |
| ReverseArray.ReversalFromZero | src/recursion/ReverseArrayUsingRecursion.java:28 | `main`'s call exchanges pairs `k` and `length - 1 - k` exactly for `k < length / 2 - 1`, and the result is a permutation of the input |
| ReverseArray.NotAFullReversal | src/recursion/ReverseArrayUsingRecursion.java:10 | whenever the pair at `length / 2 - 1` holds different values, the result is not the reversed array |
| ReverseArray.ShortArraysThrow | src/recursion/ReverseArrayUsingRecursion.java:10-22 | an empty array throws on index 0; a one-element array has its element zeroed by the self-swap and then throws on index 1, leaving `{0}` |
| ReverseArray.SwapsSurviveTheThrow | src/recursion/ReverseArrayUsingRecursion.java:6-22 | started at `(2, 1)` on `{1, 2, 3, 4}`, above the base index, the run leaves the array `{4, 3, 2, 1}` and then throws on index 4 |
| ReverseArray.ReturnsOnlyFromBelowBase | src/recursion/ReverseArrayUsingRecursion.java:6-17 | the recursion returns normally only when it starts at or below `length / 2 - 1` |
| ReverseArray.MainDemo | src/recursion/ReverseArrayUsingRecursion.java:25-30 | `{1, ..., 7}` becomes `{7, 6, 3, 4, 5, 2, 1}` |
| ReverseArray.ReverseToMiddleReverses | src/recursion/ReverseArrayUsingRecursion.java:6-17 | with the base case "indices meet or cross", `main`'s call reverses every array, the empty and one-element arrays included |

## Left out

- The concurrency and thread demos are not modelled: they are about scheduling, not computation.
- `Scanner` input and `println` output are not modelled. Inputs are parameters; printed lines and values are results.
- `Math.log10` and `Math.pow` are replaced by the integer functions `DigitCount` and `Pow`. `Math.log10` is exact on powers of ten and semi-monotonic, so `(int) (Math.log10(n) + 1)` is the number of digits of `n`. `Math.pow` is exact when both arguments are integers and the result is representable, which holds for every `digit^count` a positive `int` can produce (all below 2^53). So the `(int)` casts agree with these functions plus `SaturatingCast`.
- ArmstrongCalculator.IsNumberArmstrong: the answer is stated only when the true digit power sum fits in an `int`. Above that the `int` sum wraps, and its value is not characterised. `SmallSumFits` covers every input below 10^8.
- GcdCalculator.FindGcd: the outer `while` is modelled as an `if`. For positive arguments the inner loop always returns by `i = 1`, so the `while` body never runs twice.
- The running time of the recursions, such as the exponential two-call Fibonacci, is not modelled.
- FibonacciRecursion.FibonacciWraps: it requires `n >= 0`, because only `main` calls `fibonacci`, always with `i >= 0`. `FibonacciCall` models the negative case.
- The JVM's stack depth limit is modelled only for negative arguments of `recursionUsingBacktracking` and `fibonacci`, which need at least 2^31 nested calls (`PrintOneToN.DepthFormula`, `FibonacciRecursion.ChainDepthFormula`). A deep recursion from a non-negative argument is modelled as completing normally, though a real stack holds far fewer frames. For example, `recursionUsingBacktracking(MAX_VALUE, n)` is itself 2^31 calls deep. So the two recursions do not share one depth threshold.
- The arrays of `reverseArrayUsingRecursion` are modelled as values passed in and returned. This includes the contents at a throw. The Java method mutates its argument in place, and the caller sees the same contents. Aliasing of the array is not modelled.

## Findings

| source | as written | input that shows it | evidently intended | confidence | as-written member | corrected member |
|---|---|---|---|---|---|---|
| src/recursion/ReverseArrayUsingRecursion.java:10 | the base case `startIndex == length / 2 - 1` is checked before swapping, so the innermost pair to exchange is never exchanged | `{1, 2, 3, 4, 5, 6, 7}` becomes `{7, 6, 3, 4, 5, 2, 1}` | stop once the indices meet or cross, giving `{7, 6, 5, 4, 3, 2, 1}` | high; not executed | ReverseArray.NotAFullReversal | ReverseArray.ReverseToMiddleReverses |
| src/recursion/ReverseArrayUsingRecursion.java:10 | arrays of length 0 or 1 never meet the base case and run off the array | `{}` throws `ArrayIndexOutOfBoundsException` on index 0; `{5}` is zeroed to `{0}` and then throws on index 1 | return such arrays unchanged | high; not executed | ReverseArray.ShortArraysThrow | ReverseArray.ReverseToMiddleReverses |
| src/divisors/DivisorsPrinter.java:12 | the bound `i < number / 2` excludes `number / 2`, which divides every even number | 6 prints 1, 2 but not 3 | `i <= number / 2`, listing every divisor below `number` | medium; not executed | DivisorsPrinter.SkipsHalf | DivisorsPrinter.ProperDivisors |
