/**
 `DivisorsPrinter.printDivisors`: the values `i` with `1 <= i < number / 2`
 that divide `number`, in the order the loop prints them. The printed lines
 are modelled as the returned sequence.
 */
module DivisorsPrinter {
  import opened JavaInt

  /** The loop from `i` on: the divisors of `number` in `[i, number / 2)`. */
  function DivisorsFrom(number: int, i: int): (r: seq<int>)
    requires number > 0 && i >= 1
    ensures forall k :: 0 <= k < |r| ==> i <= r[k] < number / 2 && number % r[k] == 0
    ensures forall k, l :: 0 <= k < l < |r| ==> r[k] < r[l]
    ensures forall d :: i <= d < number / 2 && number % d == 0 ==> d in r
    decreases number / 2 - i
  {
    if i < number / 2 then
      (if number % i == 0 then [i] else []) + DivisorsFrom(number, i + 1)
    else
      []
  }

  /** `printDivisors`: nothing for `number <= 0`; otherwise exactly the
      divisors of `number` in `[1, number / 2)`, strictly ascending. Neither
      `number / 2` nor `number` itself is ever listed. */
  function PrintDivisors(number: Int32): (r: seq<int>)
    ensures number <= 0 ==> r == []
    ensures forall k :: 0 <= k < |r| ==> 1 <= r[k] < number / 2 && number % r[k] == 0
    ensures forall k, l :: 0 <= k < l < |r| ==> r[k] < r[l]
    ensures forall d :: 1 <= d < number / 2 && number % d == 0 ==> d in r
  {
    if number > 0 then DivisorsFrom(number, 1) else []
  }

  /** The outputs for 21 (the input `main` uses) and for 6, which shows that
      the divisor `number / 2` is skipped. */
  lemma DivisorsExamples()
    ensures PrintDivisors(21) == [1, 3, 7]
    ensures PrintDivisors(6) == [1, 2]
  {
  }

  /** Every even positive number has `number / 2` as a divisor, yet the loop
      bound `i < number / 2` leaves it out. */
  lemma SkipsHalf(number: Int32)
    requires number > 0 && number % 2 == 0
    ensures number % (number / 2) == 0
    ensures number / 2 !in PrintDivisors(number)
  {
    var h := number / 2;
    assert number == h * 2;
  }

  /** The loop as evidently intended, with bound `i <= number / 2`: the
      divisors of `number` in `[i, number / 2]`. */
  function DivisorsThroughHalf(number: int, i: int): (r: seq<int>)
    requires number > 0 && i >= 1
    ensures forall k :: 0 <= k < |r| ==> i <= r[k] <= number / 2 && number % r[k] == 0
    ensures forall k, l :: 0 <= k < l < |r| ==> r[k] < r[l]
    ensures forall d :: i <= d <= number / 2 && number % d == 0 ==> d in r
    decreases number / 2 + 1 - i
  {
    if i <= number / 2 then
      (if number % i == 0 then [i] else []) + DivisorsThroughHalf(number, i + 1)
    else
      []
  }

  /** A divisor smaller than the number is at most half of it. */
  lemma ProperDivisorAtMostHalf(number: int, d: int)
    requires 1 <= d < number && number % d == 0
    ensures d <= number / 2
  {
    var q := number / d;
    assert number == d * q;
    assert q >= 2;
    assert d * q == d * (q - 2) + 2 * d;
    assert d * (q - 2) >= 0;
  }

  /** The intended `printDivisors`: exactly the proper divisors of `number`
      (those below `number`), ascending; nothing for `number <= 0`. */
  function ProperDivisors(number: Int32): (r: seq<int>)
    ensures number <= 0 ==> r == []
    ensures forall k :: 0 <= k < |r| ==> 1 <= r[k] < number && number % r[k] == 0
    ensures forall k, l :: 0 <= k < l < |r| ==> r[k] < r[l]
    ensures forall d :: 1 <= d < number && number % d == 0 ==> d in r
  {
    if number > 0 then
      var r := DivisorsThroughHalf(number, 1);
      forall d | 1 <= d < number && number % d == 0
        ensures d in r
      {
        ProperDivisorAtMostHalf(number, d);
      }
      r
    else []
  }
}
