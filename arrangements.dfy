/**
 * Arrangements of a fixed multiset of integers, ordered lexicographically.
 *
 * This module holds the specification that the in-place routine in
 * NextPermNum is proved against: what "the next greater permutation" of a
 * sequence is, what it means for a sequence to have none, and the facts
 * about non-increasing suffixes that make the classic pivot/successor/
 * reverse algorithm (Knuth's Algorithm L) correct.
 */
module Arrangements {

  /** `a` and `b` hold the same values at every position below `k`. */
  predicate AgreeBelow(a: seq<int>, b: seq<int>, k: int) {
    forall i :: 0 <= i < k && i < |a| && i < |b| ==> a[i] == b[i]
  }

  /** Strict lexicographic order on sequences of equal length. */
  predicate LexLess(a: seq<int>, b: seq<int>) {
    |a| == |b| && exists k :: 0 <= k < |a| && AgreeBelow(a, b, k) && a[k] < b[k]
  }

  /** `t` holds exactly the same values as `s`, counted with multiplicity. */
  predicate IsPermutation(t: seq<int>, s: seq<int>) {
    multiset(t) == multiset(s)
  }

  predicate NonIncreasing(s: seq<int>) {
    forall i, j :: 0 <= i < j < |s| ==> s[i] >= s[j]
  }

  predicate NonDecreasing(s: seq<int>) {
    forall i, j :: 0 <= i < j < |s| ==> s[i] <= s[j]
  }

  /** The value at `i` is below its right neighbour. */
  predicate IsAscentAt(s: seq<int>, i: int) {
    0 <= i < |s| - 1 && s[i] < s[i + 1]
  }

  /** Some neighbouring pair is strictly increasing. */
  predicate HasAscent(s: seq<int>) {
    exists i | 0 <= i < |s| - 1 :: IsAscentAt(s, i)
  }

  /** No arrangement of the values of `s` is greater than `s`. */
  ghost predicate IsGreatest(s: seq<int>) {
    forall t :: IsPermutation(t, s) ==> !LexLess(s, t)
  }

  /**
   * `r` is the next permutation of `s`: an arrangement of the same values
   * that is greater than `s`, and no arrangement lies strictly between them.
   */
  ghost predicate IsNextPermutation(s: seq<int>, r: seq<int>) {
    IsPermutation(r, s) && LexLess(s, r) &&
    forall t :: IsPermutation(t, s) && LexLess(s, t) ==> !LexLess(t, r)
  }

  function Reversed(s: seq<int>): (r: seq<int>)
    ensures |r| == |s|
  {
    if s == [] then [] else Reversed(s[1..]) + [s[0]]
  }

  /**
   * `s` with the cells from `left` to `right` (both included) in reverse
   * order; nothing changes when `left >= right`.
   */
  function ReverseRange(s: seq<int>, left: int, right: int): (r: seq<int>)
    requires left < right ==> 0 <= left && right < |s|
    ensures |r| == |s|
  {
    if left < right then s[..left] + Reversed(s[left..right + 1]) + s[right + 1..] else s
  }

  /**
   * The arrangement the algorithm produces from pivot `p` and successor `q`:
   * exchange the two, then reverse everything after the pivot.
   */
  function SwapAndReverse(s: seq<int>, p: int, q: int): (r: seq<int>)
    requires 0 <= p < q < |s|
    ensures |r| == |s|
  {
    var w := s[p := s[q]][q := s[p]];
    w[..p + 1] + Reversed(w[p + 1..])
  }

  // ---------------------------------------------------------------------
  // The lexicographic order

  lemma LexLessAsymmetric(a: seq<int>, b: seq<int>)
    requires LexLess(a, b)
    ensures !LexLess(b, a)
  {
  }

  /** Two different sequences of the same length are ordered one way or the other. */
  lemma {:induction false} LexLessTotal(a: seq<int>, b: seq<int>)
    requires |a| == |b| && a != b
    ensures LexLess(a, b) || LexLess(b, a)
  {
    if a[0] != b[0] {
      assert AgreeBelow(a, b, 0) && AgreeBelow(b, a, 0);
    } else {
      var a', b' := a[1..], b[1..];
      assert a' != b' by {
        assert a == [a[0]] + a' && b == [b[0]] + b';
      }
      LexLessTotal(a', b');
      var k :| 0 <= k < |a'| && AgreeBelow(a', b', k) && a'[k] != b'[k];
      forall i | 0 <= i < k + 1 ensures a[i] == b[i] {
        if i > 0 {
          assert a'[i - 1] == a[i] && b'[i - 1] == b[i];
        }
      }
      assert AgreeBelow(a, b, k + 1) && AgreeBelow(b, a, k + 1);
      assert a[k + 1] == a'[k] && b[k + 1] == b'[k];
    }
  }

  /** Behind a common prefix, the order is decided by what follows it. */
  lemma LexLessAfterCommonPrefix(a: seq<int>, b: seq<int>, m: int)
    requires |a| == |b| && 0 <= m <= |a| && AgreeBelow(a, b, m)
    ensures LexLess(a, b) <==> LexLess(a[m..], b[m..])
  {
    if LexLess(a, b) {
      var k :| 0 <= k < |a| && AgreeBelow(a, b, k) && a[k] < b[k];
      assert k >= m;
      assert AgreeBelow(a[m..], b[m..], k - m);
      assert a[m..][k - m] < b[m..][k - m];
    }
    if LexLess(a[m..], b[m..]) {
      var k :| 0 <= k < |a| - m && AgreeBelow(a[m..], b[m..], k) && a[m..][k] < b[m..][k];
      assert AgreeBelow(a, b, m + k) by {
        forall i | m <= i < m + k ensures a[i] == b[i] {
          assert a[m..][i - m] == b[m..][i - m];
        }
      }
      assert a[m + k] < b[m + k];
    }
  }

  // ---------------------------------------------------------------------
  // Permutations and extreme arrangements

  /** Two arrangements of the same values that agree on a prefix agree, as multisets, after it. */
  lemma SuffixIsPermutation(t: seq<int>, s: seq<int>, k: int)
    requires IsPermutation(t, s) && |t| == |s| && 0 <= k <= |s| && AgreeBelow(t, s, k)
    ensures IsPermutation(t[k..], s[k..])
  {
    assert t[..k] == s[..k];
    calc {
      multiset(t[..k]) + multiset(t[k..]);
      { assert t == t[..k] + t[k..]; }
      multiset(t);
      multiset(s);
      { assert s == s[..k] + s[k..]; }
      multiset(s[..k]) + multiset(s[k..]);
      multiset(t[..k]) + multiset(s[k..]);
    }
    assert multiset(t[k..]) == multiset(s[k..]) by {
      forall x ensures multiset(t[k..])[x] == multiset(s[k..])[x] {
        assert (multiset(t[..k]) + multiset(t[k..]))[x] == (multiset(t[..k]) + multiset(s[k..]))[x];
      }
    }
  }

  /** The first element of a non-increasing sequence is its largest value. */
  lemma NonIncreasingHeadIsMax(u: seq<int>, x: int)
    requires NonIncreasing(u) && x in multiset(u)
    ensures |u| > 0 && x <= u[0]
  {
    assert x in u;
  }

  /** The first element of a non-decreasing sequence is its smallest value. */
  lemma NonDecreasingHeadIsMin(u: seq<int>, x: int)
    requires NonDecreasing(u) && x in multiset(u)
    ensures |u| > 0 && u[0] <= x
  {
    assert x in u;
  }

  /** A non-increasing tail stays so when a value no smaller than its head is put in front. */
  lemma NonIncreasingExtend(s: seq<int>, lo: int)
    requires 0 <= lo < |s| - 1 && s[lo] >= s[lo + 1] && NonIncreasing(s[lo + 1..])
    ensures NonIncreasing(s[lo..])
  {
    forall i, j | 0 <= i < j < |s| - lo ensures s[lo..][i] >= s[lo..][j] {
      assert s[lo + 1..][0] >= s[lo + 1..][j - 1];
      if i > 0 {
        assert s[lo + 1..][i - 1] >= s[lo + 1..][j - 1];
      }
    }
  }

  /** A non-increasing sequence has no ascent. */
  lemma NonIncreasingHasNoAscent(s: seq<int>)
    requires NonIncreasing(s)
    ensures !HasAscent(s)
  {
    forall i | 0 <= i < |s| - 1 ensures !IsAscentAt(s, i) {
      assert s[i] >= s[i + 1];
    }
  }

  /**
   * A non-increasing sequence is the greatest arrangement of its values:
   * the first place another arrangement differs from it would need a value
   * bigger than everything that is left.
   */
  lemma NonIncreasingIsGreatest(s: seq<int>)
    requires NonIncreasing(s)
    ensures IsGreatest(s)
  {
    forall t | IsPermutation(t, s) ensures !LexLess(s, t) {
      if LexLess(s, t) {
        var k :| 0 <= k < |s| && AgreeBelow(s, t, k) && s[k] < t[k];
        SuffixIsPermutation(t, s, k);
        NonIncreasingHeadIsMax(s[k..], t[k..][0]);
      }
    }
  }

  /** A non-decreasing sequence is the least arrangement of its values. */
  lemma NonDecreasingIsLeast(s: seq<int>, t: seq<int>)
    requires NonDecreasing(s) && IsPermutation(t, s)
    ensures !LexLess(t, s)
  {
    if LexLess(t, s) {
      var k :| 0 <= k < |s| && AgreeBelow(t, s, k) && t[k] < s[k];
      SuffixIsPermutation(t, s, k);
      NonDecreasingHeadIsMin(s[k..], t[k..][0]);
    }
  }

  // ---------------------------------------------------------------------
  // Reversal

  lemma {:induction false} ReversedAt(s: seq<int>, k: int)
    requires 0 <= k < |s|
    ensures Reversed(s)[k] == s[|s| - 1 - k]
    decreases |s|
  {
    if k < |s| - 1 {
      ReversedAt(s[1..], k);
    }
  }

  lemma {:induction false} ReversedIsPermutation(s: seq<int>)
    ensures IsPermutation(Reversed(s), s)
    decreases |s|
  {
    if s != [] {
      ReversedIsPermutation(s[1..]);
      assert s == [s[0]] + s[1..];
    }
  }

  /**
   * Cell by cell, reversing a range moves the value at `left + right - i`
   * to `i` inside the range and leaves every other cell alone.
   */
  lemma ReverseRangeAt(s: seq<int>, left: int, right: int, i: int)
    requires left < right ==> 0 <= left && right < |s|
    requires 0 <= i < |s|
    ensures ReverseRange(s, left, right)[i] == if left <= i <= right then s[left + right - i] else s[i]
  {
    if left < right && left <= i <= right {
      ReversedAt(s[left..right + 1], i - left);
    }
  }

  /** A sequence that agrees with the reversal of a range at every position is that reversal. */
  lemma ReverseRangeFromPositions(s: seq<int>, t: seq<int>, left: int, right: int)
    requires left < right ==> 0 <= left && right < |s|
    requires |t| == |s|
    requires forall i :: 0 <= i < |s| ==> t[i] == if left <= i <= right then s[left + right - i] else s[i]
    ensures t == ReverseRange(s, left, right)
  {
    forall i | 0 <= i < |s| ensures t[i] == ReverseRange(s, left, right)[i] {
      ReverseRangeAt(s, left, right, i);
    }
  }

  lemma ReversedNonIncreasing(s: seq<int>)
    requires NonIncreasing(s)
    ensures NonDecreasing(Reversed(s))
  {
    forall i, j | 0 <= i < j < |s| ensures Reversed(s)[i] <= Reversed(s)[j] {
      ReversedAt(s, i);
      ReversedAt(s, j);
    }
  }

  // ---------------------------------------------------------------------
  // Correctness of one step of the algorithm

  /**
   * The hypotheses of one step: `p` is an ascent with a non-increasing tail
   * after it, and `q` is the rightmost position after `p` holding a value
   * above `s[p]`.
   */
  predicate IsPivotAndSuccessor(s: seq<int>, p: int, q: int) {
    0 <= p < q < |s| &&
    s[p] < s[p + 1] && NonIncreasing(s[p + 1..]) &&
    s[q] > s[p] &&
    forall j :: q < j < |s| ==> s[j] <= s[p]
  }

  /** Among the tail values above the pivot value, the one at `q` is the smallest. */
  lemma SuccessorIsLeastAbovePivot(s: seq<int>, p: int, q: int, x: int)
    requires IsPivotAndSuccessor(s, p, q)
    requires x in multiset(s[p + 1..]) && x > s[p]
    ensures s[q] <= x
  {
    var j :| p < j < |s| && s[j] == x;
    assert s[p + 1..][j - p - 1] >= s[p + 1..][q - p - 1];
  }

  /** Exchanging two positions rearranges the values. */
  lemma ExchangeIsPermutation(s: seq<int>, i: int, j: int)
    requires 0 <= i < |s| && 0 <= j < |s|
    ensures IsPermutation(s[i := s[j]][j := s[i]], s)
  {
    var u := s[i := s[j]];
    assert multiset(u) == multiset(s) - multiset{s[i]} + multiset{s[j]};
    assert u[j] == s[j];
    assert multiset(u[j := s[i]]) == multiset(u) - multiset{u[j]} + multiset{s[i]};
  }

  /** After the exchange the tail is still non-increasing. */
  lemma ExchangedTailNonIncreasing(s: seq<int>, p: int, q: int)
    requires IsPivotAndSuccessor(s, p, q)
    ensures NonIncreasing(s[p := s[q]][q := s[p]][p + 1..])
  {
    var tail := s[p := s[q]][q := s[p]][p + 1..];
    var old_tail := s[p + 1..];
    assert forall i :: 0 <= i < |tail| && i != q - p - 1 ==> tail[i] == old_tail[i];
    assert tail[q - p - 1] == s[p];
    forall i, j | 0 <= i < j < |tail| ensures tail[i] >= tail[j] {
      assert old_tail[i] >= old_tail[j];
      if i < q - p - 1 {
        assert old_tail[i] >= old_tail[q - p - 1];
      }
    }
  }

  /**
   * The step rearranges the values, keeps everything before the pivot,
   * puts the successor value at the pivot and leaves the tail sorted.
   */
  lemma SwapAndReverseShape(s: seq<int>, p: int, q: int)
    requires IsPivotAndSuccessor(s, p, q)
    ensures var r := SwapAndReverse(s, p, q);
      IsPermutation(r, s) && AgreeBelow(r, s, p) && r[p] == s[q] && NonDecreasing(r[p + 1..])
  {
    var w := s[p := s[q]][q := s[p]];
    var r := SwapAndReverse(s, p, q);
    var tail := w[p + 1..];
    ExchangedTailNonIncreasing(s, p, q);
    ReversedNonIncreasing(tail);
    ReversedIsPermutation(tail);
    ExchangeIsPermutation(s, p, q);
    assert w == w[..p + 1] + tail;
    assert r == w[..p + 1] + Reversed(tail);
    assert r[p + 1..] == Reversed(tail);
  }

  /**
   * An arrangement of `s` that agrees with `s` up to a position after the
   * pivot cannot hold a larger value there: what is left of `s` from that
   * position on is non-increasing, so its first value is its largest.
   */
  lemma NoRiseAfterPivot(s: seq<int>, p: int, q: int, t: seq<int>, k: int)
    requires IsPivotAndSuccessor(s, p, q)
    requires |t| == |s| && IsPermutation(t, s) && p < k < |s| && AgreeBelow(s, t, k)
    ensures t[k] <= s[k]
  {
    SuffixIsPermutation(t, s, k);
    assert s[k..] == s[p + 1..][k - p - 1..];
    NonIncreasingHeadIsMax(s[k..], t[k..][0]);
  }

  /**
   * An arrangement of `s` that first rises above `s` at the pivot puts
   * there a tail value above `s[p]`, hence at least `s[q]`.
   */
  lemma RiseAtPivotIsAtLeastSuccessor(s: seq<int>, p: int, q: int, t: seq<int>)
    requires IsPivotAndSuccessor(s, p, q)
    requires |t| == |s| && IsPermutation(t, s) && AgreeBelow(s, t, p) && s[p] < t[p]
    ensures t[p] >= s[q]
  {
    SuffixIsPermutation(t, s, p);
    assert t[p] in multiset(s[p + 1..]) by {
      assert t[p..][0] in multiset(t[p..]);
      assert s[p..] == [s[p]] + s[p + 1..];
      assert multiset(s[p..]) == multiset{s[p]} + multiset(s[p + 1..]);
    }
    SuccessorIsLeastAbovePivot(s, p, q, t[p]);
  }

  /**
   * An arrangement of `s` that first rises above `s` at the pivot is not
   * below a step result `r`: its value at the pivot is at least
   * `s[q] == r[p]`, and when equal its remainder cannot beat the sorted
   * tail of `r`.
   */
  lemma RiseAtPivotNotBelow(s: seq<int>, p: int, q: int, r: seq<int>, t: seq<int>)
    requires IsPivotAndSuccessor(s, p, q)
    requires |r| == |s| && IsPermutation(r, s)
    requires AgreeBelow(r, s, p) && r[p] == s[q] && NonDecreasing(r[p + 1..])
    requires |t| == |s| && IsPermutation(t, s) && AgreeBelow(s, t, p) && s[p] < t[p]
    ensures !LexLess(t, r)
  {
    RiseAtPivotIsAtLeastSuccessor(s, p, q, t);
    if t[p] > r[p] {
      assert AgreeBelow(r, t, p);
      LexLessAsymmetric(r, t);
    } else {
      assert AgreeBelow(t, r, p + 1);
      SuffixIsPermutation(t, r, p + 1);
      NonDecreasingIsLeast(r[p + 1..], t[p + 1..]);
      LexLessAfterCommonPrefix(t, r, p + 1);
    }
  }

  /**
   * No arrangement above `s` lies below an arrangement `r` of the shape the
   * step produces. Look at the first place `t` rises above `s`: before the
   * pivot, `t` is above `r` too; after the pivot is impossible; at the
   * pivot, see RiseAtPivotNotBelow.
   */
  lemma StepResultIsLeastAbove(s: seq<int>, p: int, q: int, r: seq<int>, t: seq<int>)
    requires IsPivotAndSuccessor(s, p, q)
    requires |r| == |s| && IsPermutation(r, s)
    requires AgreeBelow(r, s, p) && r[p] == s[q] && NonDecreasing(r[p + 1..])
    requires IsPermutation(t, s) && LexLess(s, t)
    ensures !LexLess(t, r)
  {
    var k :| 0 <= k < |s| && AgreeBelow(s, t, k) && s[k] < t[k];
    if k < p {
      assert AgreeBelow(r, t, k);
      LexLessAsymmetric(r, t);
    } else if k > p {
      NoRiseAfterPivot(s, p, q, t, k);
    } else {
      RiseAtPivotNotBelow(s, p, q, r, t);
    }
  }

  /**
   * With `p` the rightmost ascent and `q` the rightmost position after it
   * holding a larger value, exchanging the two and reversing the tail gives
   * the next permutation.
   */
  lemma SwapAndReverseIsNext(s: seq<int>, p: int, q: int)
    requires IsPivotAndSuccessor(s, p, q)
    ensures IsNextPermutation(s, SwapAndReverse(s, p, q))
  {
    var r := SwapAndReverse(s, p, q);
    SwapAndReverseShape(s, p, q);
    assert AgreeBelow(s, r, p);
    forall t | IsPermutation(t, s) && LexLess(s, t) ensures !LexLess(t, r) {
      StepResultIsLeastAbove(s, p, q, r, t);
    }
  }

  /**
   * When a pivot and successor exist, the sequence has an ascent, is not
   * the greatest arrangement, and the step yields its next permutation.
   */
  lemma PivotStepOutcome(s: seq<int>, p: int, q: int)
    requires IsPivotAndSuccessor(s, p, q)
    ensures HasAscent(s) && !IsGreatest(s)
    ensures IsNextPermutation(s, SwapAndReverse(s, p, q))
  {
    var r := SwapAndReverse(s, p, q);
    SwapAndReverseIsNext(s, p, q);
    assert IsAscentAt(s, p);
    assert IsPermutation(r, s) && LexLess(s, r);
  }

  /** A non-increasing sequence has no ascent and is the greatest arrangement. */
  lemma NonIncreasingOutcome(s: seq<int>)
    requires NonIncreasing(s)
    ensures !HasAscent(s) && IsGreatest(s)
  {
    NonIncreasingHasNoAscent(s);
    NonIncreasingIsGreatest(s);
  }

  /** There is at most one next permutation. */
  lemma NextPermutationIsUnique(s: seq<int>, r1: seq<int>, r2: seq<int>)
    requires IsNextPermutation(s, r1) && IsNextPermutation(s, r2)
    ensures r1 == r2
  {
    if r1 != r2 {
      LexLessTotal(r1, r2);
    }
  }
}
