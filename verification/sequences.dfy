/**
 Reading a sequence backwards, shared by the palindrome check and the array
 reversal.
 */
module Sequences {

  /** `s` read backwards. */
  function Reverse<T>(s: seq<T>): (r: seq<T>)
    ensures |r| == |s|
  {
    seq(|s|, k requires 0 <= k < |s| => s[|s| - 1 - k])
  }
}
