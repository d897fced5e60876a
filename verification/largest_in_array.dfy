/**
 `findLargestNumberInArray`: a single pass over an `int[]` that keeps the
 greatest element seen so far, starting from `Integer.MIN_VALUE`.
 The array is only read: the method has no `modifies` clause.
 */
module LargestInArray {
  import opened JavaInt
  import Extremes

  /** `findLargestInArray`: `MIN_VALUE` for an empty array, otherwise the
      array's maximum. */
  method FindLargestInArray(arr: array<Int32>) returns (greatest: Int32)
    ensures arr.Length == 0 ==> greatest == MIN_VALUE
    ensures forall k :: 0 <= k < arr.Length ==> arr[k] <= greatest
    ensures arr.Length > 0 ==> greatest in arr[..]
    ensures arr.Length > 0 ==> greatest == Extremes.Max(arr[..])
  {
    greatest := MIN_VALUE;
    var n := 0;
    while n < arr.Length
      invariant 0 <= n <= arr.Length
      invariant n == 0 ==> greatest == MIN_VALUE
      invariant forall k :: 0 <= k < n ==> arr[k] <= greatest
      invariant n > 0 ==> greatest in arr[..n]
    {
      var i := arr[n];
      if i > greatest {
        greatest := i;
      }
      assert arr[..n + 1] == arr[..n] + [i];
      n := n + 1;
    }
    assert arr[..n] == arr[..];
    if arr.Length > 0 {
      Extremes.MaxUnique(arr[..], greatest);
    }
  }

  /** `main`: the demo array's largest value is 37464. */
  method LargestDemo() returns (largest: Int32)
    ensures largest == 37464
  {
    var numArr := new Int32[] [37464, 34478, 3, 5, 6, 883, 35, 7, 79];
    largest := FindLargestInArray(numArr);
    assert numArr[0] == 37464;
  }
}
