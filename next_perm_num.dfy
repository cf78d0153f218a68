/**
 * The array routines of the next-permutation handler: exchange two cells,
 * reverse a slice in place, and rewrite an array into the next greater
 * arrangement of its values (Knuth's Algorithm L), plus the conversion of
 * a decimal string into an array of digit values.
 *
 * Each routine works on the caller's array and is proved against the
 * specification in Arrangements.
 */
module NextPermNum {
  import opened Arrangements

  /** Exchanges `data[left]` and `data[right]` and hands back the same array. */
  method Swap(data: array<int>, left: int, right: int) returns (r: array<int>)
    requires 0 <= left < data.Length && 0 <= right < data.Length
    modifies data
    ensures r == data
    ensures data[..] == old(data[..])[left := old(data[right])][right := old(data[left])]
    ensures IsPermutation(data[..], old(data[..]))
  {
    var temp := data[left];
    data[left] := data[right];
    data[right] := temp;
    ExchangeIsPermutation(old(data[..]), left, right);
    return data;
  }

  /**
   * Reverses the cells `data[left..right]` (both ends included) with two
   * pointers moving inwards, and hands back the same array. When
   * `left >= right` nothing is read or written.
   */
  method Reverse(data: array<int>, left: int, right: int) returns (r: array<int>)
    requires left < right ==> 0 <= left && right < data.Length
    modifies data
    ensures r == data
    ensures data[..] == ReverseRange(old(data[..]), left, right)
  {
    var lo, hi := left, right;
    while lo < hi
      invariant lo - left == right - hi
      invariant left < right ==> left <= lo <= hi + 1 && hi <= right
      invariant left >= right ==> lo == left && hi == right
      invariant forall i :: 0 <= i < data.Length ==>
        data[i] == if left <= i < lo || hi < i <= right then old(data[left + right - i]) else old(data[i])
    {
      var temp := data[lo];
      data[lo] := data[hi];
      data[hi] := temp;
      lo, hi := lo + 1, hi - 1;
    }
    ReverseRangeFromPositions(old(data[..]), data[..], left, right);
    return data;
  }

  /** The array contents after the exchange and the tail reversal are the step's result. */
  lemma SwapThenReverseTail(s: seq<int>, swapped: seq<int>, result: seq<int>, p: int, q: int)
    requires 0 <= p < q < |s|
    requires swapped == s[q := s[p]][p := s[q]]
    requires result == ReverseRange(swapped, p + 1, |s| - 1)
    ensures result == SwapAndReverse(s, p, q)
  {
    assert swapped == s[p := s[q]][q := s[p]];
    assert swapped == swapped[..p + 1] + swapped[p + 1..];
    if p + 1 == |s| - 1 {
      assert Reversed(swapped[p + 1..]) == Reversed([swapped[p + 1]]) == [swapped[p + 1]];
    } else {
      assert swapped[p + 1..|s|] == swapped[p + 1..] && swapped[|s|..] == [];
    }
  }

  /**
   * The pivot scan: walks leftwards from the second-to-last cell and stops
   * at the first cell whose value is below its right neighbour, or at -1.
   * Everything to the right of the answer is non-increasing.
   */
  method FindPivot(data: array<int>) returns (last: int)
    requires data.Length >= 2
    ensures -1 <= last <= data.Length - 2
    ensures last >= 0 ==> IsAscentAt(data[..], last)
    ensures NonIncreasing(data[last + 1..])
    ensures last < 0 ==> NonIncreasing(data[..])
  {
    last := data.Length - 2;
    while last >= 0
      invariant -1 <= last <= data.Length - 2
      invariant NonIncreasing(data[last + 1..])
    {
      if data[last] < data[last + 1] {
        break;
      }
      NonIncreasingExtend(data[..], last);
      assert data[last..] == data[..][last..];
      last := last - 1;
    }
    if last < 0 {
      assert data[..] == data[last + 1..];
    }
  }

  /**
   * The successor scan: walks leftwards from the last cell down to just
   * after the pivot and stops at the first value above the pivot's value.
   * One exists, since the pivot's right neighbour is such a value.
   */
  method FindSuccessor(data: array<int>, last: int) returns (nextGreater: int)
    requires 0 <= last < data.Length - 1 && data[last] < data[last + 1]
    ensures last < nextGreater < data.Length && data[nextGreater] > data[last]
    ensures forall j :: nextGreater < j < data.Length ==> data[j] <= data[last]
  {
    nextGreater := data.Length - 1;
    for i := data.Length downto last + 1
      invariant forall j :: i <= j < data.Length ==> data[j] <= data[last]
    {
      if data[i] > data[last] {
        nextGreater := i;
        break;
      }
    }
  }

  /**
   * The tail of the step: exchanges the pivot with its successor, then
   * reverses everything after the pivot.
   */
  method SwapAndReverseTail(data: array<int>, last: int, nextGreater: int)
    requires 0 <= last < nextGreater < data.Length
    modifies data
    ensures data[..] == SwapAndReverse(old(data[..]), last, nextGreater)
  {
    var arr := Swap(data, nextGreater, last);
    ghost var swapped := data[..];
    arr := Reverse(arr, last + 1, arr.Length - 1);
    SwapThenReverseTail(old(data[..]), swapped, data[..], last, nextGreater);
  }

  /**
   * Rewrites `data` into the lexicographically next greater arrangement of
   * its values and answers true; when there is none (the array is
   * non-increasing, which includes every array of length 0 or 1) it writes
   * nothing and answers false.
   */
  method FindNextPermutation(data: array<int>) returns (found: bool)
    modifies data
    ensures found <==> HasAscent(old(data[..]))
    ensures found <==> !IsGreatest(old(data[..]))
    ensures data.Length <= 1 ==> !found
    ensures !found ==> data[..] == old(data[..])
    ensures found ==> IsNextPermutation(old(data[..]), data[..])
  {
    if data.Length <= 1 {
      NonIncreasingOutcome(data[..]);
      return false;
    }
    var last := FindPivot(data);
    if last < 0 {
      NonIncreasingOutcome(data[..]);
      return false;
    }
    var nextGreater := FindSuccessor(data, last);
    PivotStepOutcome(data[..], last, nextGreater);
    SwapAndReverseTail(data, last, nextGreater);
    return true;
  }

  /** Every character is a decimal digit. */
  predicate IsDecimal(s: string) {
    forall i :: 0 <= i < |s| ==> '0' <= s[i] <= '9'
  }

  /** Every value is a single decimal digit. */
  predicate AreDigits(d: seq<int>) {
    forall i :: 0 <= i < |d| ==> 0 <= d[i] <= 9
  }

  /**
   * The digit values of a string: position `i` holds the code of the
   * `i`-th character minus the code of '0'.
   */
  function DigitValues(s: string): (d: seq<int>)
    ensures |d| == |s|
    ensures IsDecimal(s) ==> AreDigits(d)
  {
    seq(|s|, i requires 0 <= i < |s| => s[i] as int - '0' as int)
  }

  /** The decimal string spelling a sequence of digits. */
  function DigitChars(d: seq<int>): (s: string)
    requires AreDigits(d)
    ensures |s| == |d| && IsDecimal(s)
  {
    seq(|d|, i requires 0 <= i < |d| => (d[i] + '0' as int) as char)
  }

  /** On decimal strings the conversion loses nothing: spelling the digits gives the string back. */
  lemma DigitValuesRoundTrip(s: string)
    requires IsDecimal(s)
    ensures DigitChars(DigitValues(s)) == s
  {
  }

  /** And every digit sequence is the conversion of its spelling. */
  lemma DigitCharsRoundTrip(d: seq<int>)
    requires AreDigits(d)
    ensures DigitValues(DigitChars(d)) == d
  {
  }

  /** Fills a fresh array with the digit values of `inputNum`, one cell per character. */
  method ConvertStringToArrayNum(inputNum: string) returns (num: array<int>)
    ensures fresh(num)
    ensures num[..] == DigitValues(inputNum)
  {
    num := new int[|inputNum|];
    for i := 0 to |inputNum|
      invariant num[..i] == DigitValues(inputNum)[..i]
    {
      num[i] := inputNum[i] as int - '0' as int;
    }
  }
}
