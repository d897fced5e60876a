/**
 `SecondLargestInArray`: single-pass scans that keep the two greatest
 (respectively the two least) distinct values seen so far in two registers
 seeded with the sentinels `Integer.MIN_VALUE` (respectively
 `Integer.MAX_VALUE`). The arrays are only read: neither method has a
 `modifies` clause.
 */
module SecondLargestInArray {
  import opened JavaInt
  import opened Extremes

  /** Some element of `s` is strictly below its maximum. */
  predicate HasBelowMax(s: seq<int>)
  {
    |s| > 0 && exists x :: x in s && x < Max(s)
  }

  /** Some element of `s` is strictly above its minimum. */
  predicate HasAboveMin(s: seq<int>)
  {
    |s| > 0 && exists x :: x in s && x > Min(s)
  }

  /** `r` is the greatest element of `s` strictly below the maximum, or the
      sentinel `MIN_VALUE` when there is no such element. */
  predicate IsSecondLargest(s: seq<int>, r: int)
  {
    if HasBelowMax(s) then
      r in s && r < Max(s) && forall x :: x in s && x < Max(s) ==> x <= r
    else
      r == MIN_VALUE
  }

  /** `r` is the least element of `s` strictly above the minimum, or the
      sentinel `MAX_VALUE` when there is no such element. */
  predicate IsSecondSmallest(s: seq<int>, r: int)
  {
    if HasAboveMin(s) then
      r in s && r > Min(s) && forall x :: x in s && x > Min(s) ==> r <= x
    else
      r == MAX_VALUE
  }

  /** At most one value is the second largest: the predicate is a complete
      specification of the scan's result. */
  lemma SecondLargestUnique(s: seq<int>, r1: int, r2: int)
    requires IsSecondLargest(s, r1) && IsSecondLargest(s, r2)
    ensures r1 == r2
  {
    if HasBelowMax(s) {
      assert r1 <= r2 && r2 <= r1;
    }
  }

  /** At most one value is the second smallest. */
  lemma SecondSmallestUnique(s: seq<int>, r1: int, r2: int)
    requires IsSecondSmallest(s, r1) && IsSecondSmallest(s, r2)
    ensures r1 == r2
  {
    if HasAboveMin(s) {
      assert r1 <= r2 && r2 <= r1;
    }
  }

  /** The registers of `findSecondLargest` after reading the prefix `p`:
      `largest` is the maximum of `p` (or `MIN_VALUE` while `p` is empty),
      `secondLargest` is the second largest of `p`, and `secondLargest` stays
      strictly below `largest` unless both still hold `MIN_VALUE`. */
  predicate LargestScanState(p: seq<int>, largest: int, secondLargest: int)
  {
    && (|p| == 0 ==> largest == MIN_VALUE && secondLargest == MIN_VALUE)
    && (|p| > 0 ==> largest == Max(p))
    && IsSecondLargest(p, secondLargest)
    && (secondLargest < largest || (secondLargest == MIN_VALUE && largest == MIN_VALUE))
  }

  /** The registers of `findSecondSmallestElement` after reading `p`. */
  predicate SmallestScanState(p: seq<int>, smallest: int, secondSmallest: int)
  {
    && (|p| == 0 ==> smallest == MAX_VALUE && secondSmallest == MAX_VALUE)
    && (|p| > 0 ==> smallest == Min(p))
    && IsSecondSmallest(p, secondSmallest)
    && (secondSmallest > smallest || (secondSmallest == MAX_VALUE && smallest == MAX_VALUE))
  }

  /** One iteration of `findSecondLargest` keeps its scan state, in each of
      the three branches of the loop body: a new maximum demotes the old one
      to second place, a value strictly between the registers becomes the
      new second, and any other value changes nothing. */
  lemma LargestScanStep(p: seq<Int32>, ele: Int32, largest: Int32, secondLargest: Int32)
    requires LargestScanState(p, largest, secondLargest)
    ensures ele > largest ==> LargestScanState(p + [ele], ele, largest)
    ensures ele <= largest && ele < largest && ele > secondLargest ==>
              LargestScanState(p + [ele], largest, ele)
    ensures ele <= largest && !(ele < largest && ele > secondLargest) ==>
              LargestScanState(p + [ele], largest, secondLargest)
  {
    if ele > largest {
      NewLargest(p, ele, largest, secondLargest);
    } else if ele < largest && ele > secondLargest {
      NewSecondLargest(p, ele, largest, secondLargest);
    } else {
      LargestUnchanged(p, ele, largest, secondLargest);
    }
  }

  lemma NewLargest(p: seq<Int32>, ele: Int32, largest: Int32, secondLargest: Int32)
    requires LargestScanState(p, largest, secondLargest) && ele > largest
    ensures LargestScanState(p + [ele], ele, largest)
  {
    MaxUnique(p + [ele], ele);
    if |p| > 0 {
      assert largest in p + [ele];
      assert HasBelowMax(p + [ele]);
    } else {
      assert p + [ele] == [ele];
      assert !HasBelowMax(p + [ele]);
    }
  }

  lemma NewSecondLargest(p: seq<Int32>, ele: Int32, largest: Int32, secondLargest: Int32)
    requires LargestScanState(p, largest, secondLargest)
    requires ele < largest && ele > secondLargest
    ensures LargestScanState(p + [ele], largest, ele)
  {
    MaxUnique(p + [ele], largest);
    assert ele in p + [ele];
    assert HasBelowMax(p + [ele]);
  }

  lemma LargestUnchanged(p: seq<Int32>, ele: Int32, largest: Int32, secondLargest: Int32)
    requires LargestScanState(p, largest, secondLargest)
    requires ele <= largest && !(ele < largest && ele > secondLargest)
    ensures LargestScanState(p + [ele], largest, secondLargest)
  {
    if |p| == 0 {
      // Only `MIN_VALUE` is not above the sentinel `largest`.
      assert p + [ele] == [ele];
      MaxUnique([ele], ele);
      assert !HasBelowMax([ele]);
    } else {
      MaxUnique(p + [ele], largest);
      if HasBelowMax(p) {
        assert secondLargest in p + [ele];
        assert HasBelowMax(p + [ele]);
      } else if ele < largest {
        // `secondLargest` still holds the sentinel, so `ele <= secondLargest`
        // only when `ele` is `MIN_VALUE` itself.
        assert ele in p + [ele];
        assert HasBelowMax(p + [ele]);
      } else {
        assert !HasBelowMax(p + [ele]);
      }
    }
  }

  /** One iteration of `findSecondSmallestElement` keeps its scan state. */
  lemma SmallestScanStep(p: seq<Int32>, ele: Int32, smallest: Int32, secondSmallest: Int32)
    requires SmallestScanState(p, smallest, secondSmallest)
    ensures ele < smallest ==> SmallestScanState(p + [ele], ele, smallest)
    ensures ele >= smallest && ele > smallest && ele < secondSmallest ==>
              SmallestScanState(p + [ele], smallest, ele)
    ensures ele >= smallest && !(ele > smallest && ele < secondSmallest) ==>
              SmallestScanState(p + [ele], smallest, secondSmallest)
  {
    if ele < smallest {
      NewSmallest(p, ele, smallest, secondSmallest);
    } else if ele > smallest && ele < secondSmallest {
      NewSecondSmallest(p, ele, smallest, secondSmallest);
    } else {
      SmallestUnchanged(p, ele, smallest, secondSmallest);
    }
  }

  lemma NewSmallest(p: seq<Int32>, ele: Int32, smallest: Int32, secondSmallest: Int32)
    requires SmallestScanState(p, smallest, secondSmallest) && ele < smallest
    ensures SmallestScanState(p + [ele], ele, smallest)
  {
    MinUnique(p + [ele], ele);
    if |p| > 0 {
      assert smallest in p + [ele];
      assert HasAboveMin(p + [ele]);
    } else {
      assert p + [ele] == [ele];
      assert !HasAboveMin(p + [ele]);
    }
  }

  lemma NewSecondSmallest(p: seq<Int32>, ele: Int32, smallest: Int32, secondSmallest: Int32)
    requires SmallestScanState(p, smallest, secondSmallest)
    requires ele > smallest && ele < secondSmallest
    ensures SmallestScanState(p + [ele], smallest, ele)
  {
    MinUnique(p + [ele], smallest);
    assert ele in p + [ele];
    assert HasAboveMin(p + [ele]);
  }

  lemma SmallestUnchanged(p: seq<Int32>, ele: Int32, smallest: Int32, secondSmallest: Int32)
    requires SmallestScanState(p, smallest, secondSmallest)
    requires ele >= smallest && !(ele > smallest && ele < secondSmallest)
    ensures SmallestScanState(p + [ele], smallest, secondSmallest)
  {
    if |p| == 0 {
      assert p + [ele] == [ele];
      MinUnique([ele], ele);
      assert !HasAboveMin([ele]);
    } else {
      MinUnique(p + [ele], smallest);
      if HasAboveMin(p) {
        assert secondSmallest in p + [ele];
        assert HasAboveMin(p + [ele]);
      } else if ele > smallest {
        assert ele in p + [ele];
        assert HasAboveMin(p + [ele]);
      } else {
        assert !HasAboveMin(p + [ele]);
      }
    }
  }

  /** `findSecondLargest`: the greatest element strictly below the maximum,
      or `MIN_VALUE` when there is none (in particular for an empty or
      all-equal array). */
  method FindSecondLargest(arr: array<Int32>) returns (secondLargest: Int32)
    ensures IsSecondLargest(arr[..], secondLargest)
    ensures arr.Length == 0 ==> secondLargest == MIN_VALUE
    ensures secondLargest == MIN_VALUE || (secondLargest in arr[..] && secondLargest < Max(arr[..]))
  {
    var largest: Int32 := MIN_VALUE;
    secondLargest := MIN_VALUE;
    var n := 0;
    while n < arr.Length
      invariant 0 <= n <= arr.Length
      invariant LargestScanState(arr[..n], largest, secondLargest)
    {
      var ele := arr[n];
      assert arr[..n + 1] == arr[..n] + [ele];
      LargestScanStep(arr[..n], ele, largest, secondLargest);
      if ele > largest {
        secondLargest := largest;
        largest := ele;
      } else if ele < largest && ele > secondLargest {
        secondLargest := ele;
      }
      n := n + 1;
    }
    assert arr[..n] == arr[..];
  }

  /** `findSecondSmallestElement`, the mirror image of `FindSecondLargest`
      with `MAX_VALUE` as the sentinel. */
  method FindSecondSmallestElement(arr: array<Int32>) returns (secondSmallest: Int32)
    ensures IsSecondSmallest(arr[..], secondSmallest)
    ensures arr.Length == 0 ==> secondSmallest == MAX_VALUE
    ensures secondSmallest == MAX_VALUE || (secondSmallest in arr[..] && secondSmallest > Min(arr[..]))
  {
    var smallest: Int32 := MAX_VALUE;
    secondSmallest := MAX_VALUE;
    var n := 0;
    while n < arr.Length
      invariant 0 <= n <= arr.Length
      invariant SmallestScanState(arr[..n], smallest, secondSmallest)
    {
      var ele := arr[n];
      assert arr[..n + 1] == arr[..n] + [ele];
      SmallestScanStep(arr[..n], ele, smallest, secondSmallest);
      if ele < smallest {
        secondSmallest := smallest;
        smallest := ele;
      } else if ele > smallest && ele < secondSmallest {
        secondSmallest := ele;
      }
      n := n + 1;
    }
    assert arr[..n] == arr[..];
  }

  /** The scan's result equals its sentinel exactly when every element is the
      maximum or is `MIN_VALUE` itself. */
  lemma SecondLargestSentinel(s: seq<Int32>, r: int)
    requires IsSecondLargest(s, r)
    ensures r == MIN_VALUE <==> forall k :: 0 <= k < |s| ==> s[k] == MIN_VALUE || s[k] == Max(s)
  {
    if HasBelowMax(s) {
      if r == MIN_VALUE {
        forall k | 0 <= k < |s|
          ensures s[k] == MIN_VALUE || s[k] == Max(s)
        {
          assert s[k] in s;
        }
      } else {
        var j :| 0 <= j < |s| && s[j] == r;
        assert s[j] != MIN_VALUE && s[j] != Max(s);
      }
    } else {
      forall k | 0 <= k < |s|
        ensures s[k] == Max(s)
      {
        assert s[k] in s;
      }
    }
  }

  /** Mirror image of `SecondLargestSentinel` for the second smallest. */
  lemma SecondSmallestSentinel(s: seq<Int32>, r: int)
    requires IsSecondSmallest(s, r)
    ensures r == MAX_VALUE <==> forall k :: 0 <= k < |s| ==> s[k] == MAX_VALUE || s[k] == Min(s)
  {
    if HasAboveMin(s) {
      if r == MAX_VALUE {
        forall k | 0 <= k < |s|
          ensures s[k] == MAX_VALUE || s[k] == Min(s)
        {
          assert s[k] in s;
        }
      } else {
        var j :| 0 <= j < |s| && s[j] == r;
        assert s[j] != MAX_VALUE && s[j] != Min(s);
      }
    } else {
      forall k | 0 <= k < |s|
        ensures s[k] == Min(s)
      {
        assert s[k] in s;
      }
    }
  }

  /** What `main` prints for one scan: a value, or "not present" when the
      scan returned its sentinel. */
  datatype Report = NotPresent | Present(value: int)

  /** `main`'s reporting: a result equal to the sentinel is reported as
      "not present". For the second largest that happens exactly when every
      element equals the maximum or is `MIN_VALUE` itself, so an empty or
      all-equal array is reported as "not present". */
  method ReportSecondLargest(arr: array<Int32>) returns (report: Report)
    ensures report.NotPresent? <==>
              forall k :: 0 <= k < arr.Length ==> arr[k] == MIN_VALUE || arr[k] == Max(arr[..])
    ensures report.Present? ==> report.value != MIN_VALUE && IsSecondLargest(arr[..], report.value)
  {
    var secondLargest := FindSecondLargest(arr);
    SecondLargestSentinel(arr[..], secondLargest);
    if secondLargest == MIN_VALUE {
      report := NotPresent;
    } else {
      report := Present(secondLargest);
    }
  }

  /** The same for the second smallest, with `MAX_VALUE` as the sentinel. */
  method ReportSecondSmallest(arr: array<Int32>) returns (report: Report)
    ensures report.NotPresent? <==>
              forall k :: 0 <= k < arr.Length ==> arr[k] == MAX_VALUE || arr[k] == Min(arr[..])
    ensures report.Present? ==> report.value != MAX_VALUE && IsSecondSmallest(arr[..], report.value)
  {
    var secondSmallest := FindSecondSmallestElement(arr);
    SecondSmallestSentinel(arr[..], secondSmallest);
    if secondSmallest == MAX_VALUE {
      report := NotPresent;
    } else {
      report := Present(secondSmallest);
    }
  }

  /** `main` on its active demo array: second largest 434, second smallest 2. */
  method SecondExtremesDemo() returns (largest: Report, smallest: Report)
    ensures largest == Present(434)
    ensures smallest == Present(2)
  {
    var numArr := new Int32[] [2, 34, 45, 0, 434, 89, 910, 101];
    assert numArr[..] == [2, 34, 45, 0, 434, 89, 910, 101];
    MaxUnique(numArr[..], 910);
    MinUnique(numArr[..], 0);
    assert IsSecondLargest(numArr[..], 434);
    assert IsSecondSmallest(numArr[..], 2);
    largest := ReportSecondLargest(numArr);
    SecondLargestUnique(numArr[..], largest.value, 434);
    smallest := ReportSecondSmallest(numArr);
    SecondSmallestUnique(numArr[..], smallest.value, 2);
  }

  /** A commented-out demo array of `main`: eight 1s followed by six 2s give
      second largest 1. */
  method OnesAndTwosDemo() returns (report: Report)
    ensures report == Present(1)
  {
    var mixed := new Int32[] [1, 1, 1, 1, 1, 1, 1, 1, 2, 2, 2, 2, 2, 2];
    assert mixed[..] == [1, 1, 1, 1, 1, 1, 1, 1, 2, 2, 2, 2, 2, 2];
    MaxUnique(mixed[..], 2);
    assert 1 in mixed[..];
    assert IsSecondLargest(mixed[..], 1);
    report := ReportSecondLargest(mixed);
    SecondLargestUnique(mixed[..], report.value, 1);
  }

  /** Another commented-out demo array: fifteen 2s give "not present". */
  method AllTwosDemo() returns (report: Report)
    ensures report == NotPresent
  {
    var twos := new Int32[] [2, 2, 2, 2, 2, 2, 2, 2, 2, 2, 2, 2, 2, 2, 2];
    assert twos[..] == [2, 2, 2, 2, 2, 2, 2, 2, 2, 2, 2, 2, 2, 2, 2];
    MaxUnique(twos[..], 2);
    report := ReportSecondLargest(twos);
  }
}
