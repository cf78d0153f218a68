/**
 * Worked cases of the next-permutation step on digit sequences, each
 * derived from the general lemmas of Arrangements, and one verified call
 * of FindNextPermutation whose contract alone fixes its answer.
 */
module NextPermExamples {
  import opened Arrangements
  import NextPermNum

  /** 123 is followed by 132: pivot at index 1, successor at index 2. */
  lemma NextOf123()
    ensures IsNextPermutation([1, 2, 3], [1, 3, 2])
  {
    var s := [1, 2, 3];
    assert IsPivotAndSuccessor(s, 1, 2);
    assert SwapAndReverse(s, 1, 2) == [1, 3, 2] by {
      assert Reversed([2]) == [2];
    }
    SwapAndReverseIsNext(s, 1, 2);
  }

  /** 115 is followed by 151: repeated digits are handled. */
  lemma NextOf115()
    ensures IsNextPermutation([1, 1, 5], [1, 5, 1])
  {
    var s := [1, 1, 5];
    assert IsPivotAndSuccessor(s, 1, 2);
    assert SwapAndReverse(s, 1, 2) == [1, 5, 1] by {
      assert Reversed([1]) == [1];
    }
    SwapAndReverseIsNext(s, 1, 2);
  }

  /**
   * 230241 is followed by 230412: pivot at index 3 (value 2), successor at
   * index 4 (value 4), and the tail 21 is reversed into 12.
   */
  lemma NextOf230241()
    ensures IsNextPermutation([2, 3, 0, 2, 4, 1], [2, 3, 0, 4, 1, 2])
  {
    var s := [2, 3, 0, 2, 4, 1];
    assert s[4..] == [4, 1];
    assert IsPivotAndSuccessor(s, 3, 4);
    assert SwapAndReverse(s, 3, 4) == [2, 3, 0, 4, 1, 2] by {
      assert Reversed([1]) == [1];
      assert Reversed([2, 1]) == [1, 2];
    }
    SwapAndReverseIsNext(s, 3, 4);
  }

  /** 321, 0 and 555 have no successor. */
  lemma NoSuccessors()
    ensures IsGreatest([3, 2, 1]) && !HasAscent([3, 2, 1])
    ensures IsGreatest([0]) && !HasAscent([0])
    ensures IsGreatest([5, 5, 5]) && !HasAscent([5, 5, 5])
  {
    NonIncreasingOutcome([3, 2, 1]);
    NonIncreasingOutcome([0]);
    NonIncreasingOutcome([5, 5, 5]);
  }

  /**
   * A call of FindNextPermutation on the digits of 123: its contract says
   * the answer is a next permutation, and there is only one, so the array
   * is proved to end up holding 132.
   */
  method CallOn123() returns (found: bool, digits: seq<int>)
    ensures found && digits == [1, 3, 2]
  {
    var data := new int[3];
    data[0], data[1], data[2] := 1, 2, 3;
    assert data[..] == [1, 2, 3];
    assert IsAscentAt(data[..], 0);
    found := NextPermNum.FindNextPermutation(data);
    digits := data[..];
    NextOf123();
    NextPermutationIsUnique([1, 2, 3], digits, [1, 3, 2]);
  }
}
