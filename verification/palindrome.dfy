/**
 `CheckPalindromeUsingRecursion.checkPalindrome`: compares the characters at
 positions `i` and `len - 1 - i`, moving inwards one step per call until `i`
 passes `len / 2 - 1`. The printed verdict becomes the returned value; the
 `StringIndexOutOfBoundsException` that `charAt` throws for a negative start
 index is the outcome `IndexOutOfBounds`.

 A Java `String` is a sequence of UTF-16 code units: `length()` counts them
 and `charAt` returns one. A character outside the Basic Multilingual Plane
 occupies two positions (a surrogate pair), and the check compares the two
 halves of such a pair separately, like any other positions.
 */
module Palindrome {
  import opened Sequences

  /** A Java `char`: one UTF-16 code unit. */
  type CodeUnit = c: int | 0 <= c < 0x1_0000

  datatype Outcome = Verdict(palindrome: bool) | IndexOutOfBounds(index: int)

  /** `checkPalindrome(i, s)`: for `i >= 0` a verdict that holds exactly when
      every position from `i` up to the middle matches its mirror position;
      a negative `i` makes the first `charAt` throw. */
  function CheckPalindrome(i: int, s: seq<CodeUnit>): (r: Outcome)
    ensures i < 0 ==> r == IndexOutOfBounds(i)
    ensures i >= 0 ==> r == Verdict(forall k :: i <= k < |s| / 2 ==> s[k] == s[|s| - 1 - k])
    decreases |s| - i
  {
    if i > |s| / 2 - 1 then Verdict(true)
    else if i < 0 then IndexOutOfBounds(i)
    else if s[i] != s[|s| - i - 1] then Verdict(false)
    else CheckPalindrome(i + 1, s)
  }

  /** Started at 0, as `main` does, the verdict is whether the string equals
      its reverse. */
  lemma FromStartMeansReverse(s: seq<CodeUnit>)
    ensures CheckPalindrome(0, s) == Verdict(s == Reverse(s))
  {
    var half := forall k :: 0 <= k < |s| / 2 ==> s[k] == s[|s| - 1 - k];
    if half {
      forall k | 0 <= k < |s|
        ensures s[k] == Reverse(s)[k]
      {
        if k >= |s| / 2 && |s| - 1 - k < |s| / 2 {
          assert s[|s| - 1 - k] == s[|s| - 1 - (|s| - 1 - k)];
        }
      }
      assert s == Reverse(s);
    } else {
      var k :| 0 <= k < |s| / 2 && s[k] != s[|s| - 1 - k];
      assert Reverse(s)[k] != s[k];
    }
  }

  /** Strings of length 0 or 1 are palindromes without any comparison. */
  lemma ShortStringsArePalindromes(s: seq<CodeUnit>, i: int)
    requires |s| <= 1 && i >= 0
    ensures CheckPalindrome(i, s) == Verdict(true)
  {
  }

  /** "a", U+1F600, "a" is spelled with four code units, the emoji as the
      surrogate pair D83D DE00. Its mirror positions 1 and 2 hold different
      halves of the pair, so the verdict is "not a palindrome" although the
      three characters read the same backwards. */
  lemma SurrogatePairIsNotMirrored(s: seq<CodeUnit>)
    requires s == [0x61, 0xD83D, 0xDE00, 0x61]
    ensures CheckPalindrome(0, s) == Verdict(false)
  {
    assert s[1] != s[|s| - 1 - 1];
  }

  /** The number of nested `checkPalindrome` calls, counting the first. */
  function Calls(i: int, s: seq<CodeUnit>): (d: nat)
    ensures d >= 1
    ensures i >= 0 ==> d <= (if |s| / 2 - i > 0 then |s| / 2 - i else 0) + 1
    decreases |s| - i
  {
    if i > |s| / 2 - 1 || i < 0 || s[i] != s[|s| - i - 1] then 1
    else 1 + Calls(i + 1, s)
  }
}
