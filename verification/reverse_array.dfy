/**
 `ReverseArrayUsingRecursion`: an in-place "reversal" that swaps the pair
 (`startIndex`, `endIndex`) with the add/subtract trick and recurses inwards
 until `startIndex == length / 2 - 1`. Because that base case is checked
 before swapping, the pair at `length / 2 - 1` and the middle are never
 touched, so the array ends only partly reversed.

 The array is modelled by value: each call maps the contents before the call
 to the contents after it. An `ArrayIndexOutOfBoundsException` ends the run
 with the outcome `IndexOutOfBounds`, which carries the offending index and
 the contents the caller's array holds at the throw: swaps already done stay
 done.
 */
module ReverseArray {
  import opened JavaInt
  import opened Sequences

  /** How a call ends; either way `arr` is the array's contents afterwards. */
  datatype Run = Returned(arr: seq<Int32>) | IndexOutOfBounds(index: int, arr: seq<Int32>)

  /** `swapValues(i, j, arr)`: three assignments in wrapping `int` arithmetic.
      For distinct in-bounds indices the two elements are exchanged, even when
      their sum overflows; for equal indices the element becomes 0. The first
      right-hand side reads both elements before anything is written, so an
      out-of-bounds index throws with the array unchanged, `i` being read
      first. */
  function SwapValues(i: int, j: int, a: seq<Int32>): (r: Run)
    ensures !(0 <= i < |a|) ==> r == IndexOutOfBounds(i, a)
    ensures 0 <= i < |a| && !(0 <= j < |a|) ==> r == IndexOutOfBounds(j, a)
    ensures 0 <= i < |a| && 0 <= j < |a| && i != j ==> r == Returned(a[i := a[j]][j := a[i]])
    ensures 0 <= i < |a| && 0 <= j < |a| && i == j ==> r == Returned(a[i := 0])
    ensures r.Returned? ==> |r.arr| == |a|
  {
    if !(0 <= i < |a|) then IndexOutOfBounds(i, a)
    else if !(0 <= j < |a|) then IndexOutOfBounds(j, a)
    else
      var a1 := a[i := Add(a[i], a[j])];
      var a2 := a1[j := Sub(a1[i], a1[j])];
      var a3 := a2[i := Sub(a2[i], a2[j])];
      AddSubCancel(a[i], a[j]);
      assert i != j ==> a3 == a[i := a[j]][j := a[i]];
      assert i == j ==> a3 == a[i := 0];
      Returned(a3)
  }

  /** `reverseArrayUsingRecursion(startIndex, endIndex, arr)`. */
  function ReverseArrayUsingRecursion(startIndex: int, endIndex: int, a: seq<Int32>): (r: Run)
    decreases |a| - startIndex
  {
    if startIndex == |a| / 2 - 1 then Returned(a)
    else
      match SwapValues(startIndex, endIndex, a)
      case IndexOutOfBounds(k, c) => IndexOutOfBounds(k, c)
      case Returned(b) => ReverseArrayUsingRecursion(startIndex + 1, endIndex - 1, b)
  }

  /** `main`'s call `reverseArrayUsingRecursion(0, inputArr.length - 1, inputArr)`. */
  function ReverseFromMain(a: seq<Int32>): Run
  {
    ReverseArrayUsingRecursion(0, |a| - 1, a)
  }

  /** Reference result: positions `k` and `|a| - 1 - k` exchanged for every `k`
      in `[lo, hi)`, every other position as in `a`. */
  function MirrorSwapped(a: seq<Int32>, lo: int, hi: int): (r: seq<Int32>)
    ensures |r| == |a|
  {
    seq(|a|, k requires 0 <= k < |a| =>
      if lo <= k < hi || lo <= |a| - 1 - k < hi then a[|a| - 1 - k] else a[k])
  }

  /** One step of the recursion: exchanging the outermost pair of the range
      `[lo, hi)` and then the rest is the same as exchanging the whole range. */
  lemma MirrorSwappedStep(a: seq<Int32>, lo: int, hi: int)
    requires 0 <= lo < hi <= |a| / 2
    ensures MirrorSwapped(a[lo := a[|a| - 1 - lo]][|a| - 1 - lo := a[lo]], lo + 1, hi) == MirrorSwapped(a, lo, hi)
  {
  }

  /** Exchanging two positions permutes the contents. */
  lemma ExchangePermutes(a: seq<Int32>, i: int, j: int)
    requires 0 <= i < |a| && 0 <= j < |a|
    ensures multiset(a[i := a[j]][j := a[i]]) == multiset(a)
  {
  }

  /** At the base index the call returns the array untouched. */
  lemma StopsAtBase(startIndex: int, a: seq<Int32>)
    requires startIndex == |a| / 2 - 1
    ensures ReverseArrayUsingRecursion(startIndex, |a| - 1 - startIndex, a)
            == Returned(MirrorSwapped(a, startIndex, |a| / 2 - 1))
  {
    assert MirrorSwapped(a, startIndex, startIndex) == a;
  }

  /** Below the base index a call on a mirrored pair exchanges that pair and
      continues with the next mirrored pair inwards. */
  lemma RecursionStep(startIndex: int, a: seq<Int32>)
    requires 0 <= startIndex < |a| / 2 - 1
    ensures ReverseArrayUsingRecursion(startIndex, |a| - 1 - startIndex, a)
            == ReverseArrayUsingRecursion(startIndex + 1, |a| - 1 - (startIndex + 1),
                                          a[startIndex := a[|a| - 1 - startIndex]][|a| - 1 - startIndex := a[startIndex]])
  {
  }

  /** Started at a mirrored pair at or below `|a| / 2 - 1`, the run returns
      normally and exchanges exactly the mirrored pairs from `startIndex` up
      to (not including) `|a| / 2 - 1`. */
  lemma {:induction false} ReversalFrom(startIndex: int, a: seq<Int32>)
    requires 0 <= startIndex <= |a| / 2 - 1
    ensures ReverseArrayUsingRecursion(startIndex, |a| - 1 - startIndex, a)
            == Returned(MirrorSwapped(a, startIndex, |a| / 2 - 1))
    decreases |a| / 2 - 1 - startIndex
  {
    if startIndex == |a| / 2 - 1 {
      StopsAtBase(startIndex, a);
    } else {
      var endIndex := |a| - 1 - startIndex;
      var b := a[startIndex := a[endIndex]][endIndex := a[startIndex]];
      RecursionStep(startIndex, a);
      ReversalFrom(startIndex + 1, b);
      MirrorSwappedStep(a, startIndex, |a| / 2 - 1);
    }
  }

  /** Exchanging mirrored pairs permutes the contents. */
  lemma {:induction false} MirrorSwappedPermutes(a: seq<Int32>, lo: int, hi: int)
    requires 0 <= lo <= hi <= |a| / 2
    ensures multiset(MirrorSwapped(a, lo, hi)) == multiset(a)
    decreases hi - lo
  {
    if lo == hi {
      assert MirrorSwapped(a, lo, hi) == a;
    } else {
      var b := a[lo := a[|a| - 1 - lo]][|a| - 1 - lo := a[lo]];
      MirrorSwappedPermutes(b, lo + 1, hi);
      MirrorSwappedStep(a, lo, hi);
      ExchangePermutes(a, lo, |a| - 1 - lo);
    }
  }

  /** `main`'s call `(0, length - 1)` on an array of at least two elements:
      positions `k` and `length - 1 - k` are exchanged exactly for
      `0 <= k < length / 2 - 1`, everything else stays, and the result is a
      permutation of the input. */
  lemma ReversalFromZero(a: seq<Int32>)
    requires |a| >= 2
    ensures ReverseFromMain(a) == Returned(MirrorSwapped(a, 0, |a| / 2 - 1))
    ensures multiset(MirrorSwapped(a, 0, |a| / 2 - 1)) == multiset(a)
  {
    var startIndex := 0;
    ReversalFrom(startIndex, a);
    MirrorSwappedPermutes(a, 0, |a| / 2 - 1);
  }

  /** The result is not the reversal whenever the pair at `length / 2 - 1`
      holds different values. */
  lemma NotAFullReversal(a: seq<Int32>)
    requires |a| >= 2 && a[|a| / 2 - 1] != a[|a| - |a| / 2]
    ensures ReverseFromMain(a) != Returned(Reverse(a))
  {
    ReversalFromZero(a);
    assert MirrorSwapped(a, 0, |a| / 2 - 1)[|a| / 2 - 1] != Reverse(a)[|a| / 2 - 1];
  }

  /** Arrays shorter than two elements never meet the base case: an empty
      array throws on index 0; a one-element array has that element zeroed by
      a self-swap and then throws on index 1, leaving the caller `{0}`. */
  lemma ShortArraysThrow(a: seq<Int32>)
    requires |a| < 2
    ensures |a| == 0 ==> ReverseFromMain(a) == IndexOutOfBounds(0, a)
    ensures |a| == 1 ==> ReverseFromMain(a) == IndexOutOfBounds(1, [0])
  {
    if |a| == 1 {
      assert SwapValues(0, 0, a) == Returned([0]);
      assert ReverseArrayUsingRecursion(1, -1, [0]) == IndexOutOfBounds(1, [0]);
    }
  }

  /** Swaps done before a throw stay done: started above the base index on
      {1, 2, 3, 4}, the run exchanges two pairs, leaving the array fully
      reversed, and then throws on index 4. */
  lemma SwapsSurviveTheThrow(startIndex: int, endIndex: int, a: seq<Int32>)
    requires startIndex == 2 && endIndex == 1 && a == [1, 2, 3, 4]
    ensures ReverseArrayUsingRecursion(startIndex, endIndex, a) == IndexOutOfBounds(4, [4, 3, 2, 1])
  {
    assert SwapValues(2, 1, a) == Returned([1, 3, 2, 4]);
    assert SwapValues(3, 0, [1, 3, 2, 4]) == Returned([4, 3, 2, 1]);
  }

  /** The recursion only returns normally when it starts at or below the base
      index; started above it, it runs off the array and throws. */
  lemma {:induction false} ReturnsOnlyFromBelowBase(startIndex: int, endIndex: int, a: seq<Int32>)
    requires ReverseArrayUsingRecursion(startIndex, endIndex, a).Returned?
    ensures startIndex <= |a| / 2 - 1
    decreases |a| - startIndex
  {
    if startIndex != |a| / 2 - 1 {
      var b := SwapValues(startIndex, endIndex, a).arr;
      ReturnsOnlyFromBelowBase(startIndex + 1, endIndex - 1, b);
    }
  }

  /** `main`'s demo {1, ..., 7}: only the two outer pairs are exchanged and
      indices 2..4 stay in place. */
  lemma MainDemo(a: seq<Int32>)
    requires a == [1, 2, 3, 4, 5, 6, 7]
    ensures ReverseFromMain(a) == Returned([7, 6, 3, 4, 5, 2, 1])
  {
    ReversalFromZero(a);
    assert MirrorSwapped(a, 0, 2) == [7, 6, 3, 4, 5, 2, 1];
  }

  /** The recursion as evidently intended: stop once the indices meet or
      cross, so that every mirrored pair is exchanged. */
  function ReverseToMiddle(startIndex: int, endIndex: int, a: seq<Int32>): Run
    decreases endIndex - startIndex
  {
    if startIndex >= endIndex then Returned(a)
    else
      match SwapValues(startIndex, endIndex, a)
      case IndexOutOfBounds(k, c) => IndexOutOfBounds(k, c)
      case Returned(b) => ReverseToMiddle(startIndex + 1, endIndex - 1, b)
  }

  /** The intended recursion started with `main`'s arguments. */
  function ReverseToMiddleFromMain(a: seq<Int32>): Run
  {
    ReverseToMiddle(0, |a| - 1, a)
  }

  /** Started at a mirrored pair at or below the middle, the intended
      recursion exchanges every mirrored pair from `startIndex` to the
      middle and never throws. */
  lemma {:induction false} ReverseToMiddleFrom(startIndex: int, a: seq<Int32>)
    requires 0 <= startIndex <= |a| / 2
    ensures ReverseToMiddle(startIndex, |a| - 1 - startIndex, a)
            == Returned(MirrorSwapped(a, startIndex, |a| / 2))
    decreases |a| / 2 - startIndex
  {
    var endIndex := |a| - 1 - startIndex;
    if startIndex == |a| / 2 {
      assert MirrorSwapped(a, startIndex, startIndex) == a;
    } else {
      var b := a[startIndex := a[endIndex]][endIndex := a[startIndex]];
      assert SwapValues(startIndex, endIndex, a) == Returned(b);
      ReverseToMiddleFrom(startIndex + 1, b);
      MirrorSwappedStep(a, startIndex, |a| / 2);
    }
  }

  /** The intended recursion reverses every array, the empty and the
      one-element array included. */
  lemma ReverseToMiddleReverses(a: seq<Int32>)
    ensures ReverseToMiddleFromMain(a) == Returned(Reverse(a))
  {
    var startIndex := 0;
    ReverseToMiddleFrom(startIndex, a);
    assert MirrorSwapped(a, 0, |a| / 2) == Reverse(a);
  }
}
