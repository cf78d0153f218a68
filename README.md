# Next permutation of an integer's digits, in Dafny

This project models the array routines of the `GetNextPermNumHandler` Lambda
handler (file `NextPermNum.java`). The handler is meant to take a
non-negative decimal number and answer with its digits rearranged into the
next greater arrangement, rendered as a digit list such as `[1, 3, 2]`, or
with "No Answer" when there is none (the handler itself does not compile as
written). Its core is three static routines on an
`int[]`, which work in place as Knuth's Algorithm L:

- `swap` exchanges two cells.
- `reverse` reverses a slice with two pointers moving inwards.
- `findNextPermutation` does four things in order:
  1. finds the rightmost *pivot* `last` with `data[last] < data[last + 1]`;
  2. finds the rightmost *successor* `nextGreater > last` with a value above the pivot's;
  3. exchanges the two;
  4. reverses everything after the pivot.

  It answers `false`, without writing anything, when no pivot exists.

A fourth routine, `convertStringToArrayNum`, turns the input string into
digit values.

The project has three modules:

- `Arrangements` (`arrangements.dfy`): the specification, as pure
  definitions and lemmas.
  - Lexicographic order, `LexLess`.
  - Rearrangement of the same values, `IsPermutation`, stated with multisets.
  - "No arrangement is greater", `IsGreatest`.
  - "The next permutation", `IsNextPermutation`: a greater arrangement with
    no arrangement strictly between.
  - The facts about non-increasing suffixes that make the algorithm correct.
- `NextPermNum` (`next_perm_num.dfy`): the routines as methods on an
  `array<int>` that they update in place. The array routines are proved
  against `Arrangements`; the digit conversion is proved against the
  function `DigitValues` in the same module.
  - The two scans of `findNextPermutation` (the pivot `while` loop and the
    successor `for` loop) are written as the methods `FindPivot` and
    `FindSuccessor`.
  - Its closing `swap` + `reverse` pair is written as `SwapAndReverseTail`.
  - `FindNextPermutation` calls these in the order of the Java code, with the
    same guards, so reads, writes and answers are the same.
- `NextPermExamples` (`examples.dfy`): worked cases (123, 115, 230241, 321,
  0, 555).
  - A verified call of `FindNextPermutation` on the digits of 123: its
    result 1,3,2 follows from the method's contract alone.

Differences from the code as written:

- `convertStringToArrayNum` does not compile as written. It stores into an
  undeclared array `ch`, returns the untouched `num`, and lacks a semicolon.
  The model follows its evident intent: cell `i` of a fresh array holds
  the code of the `i`-th character minus that of '0'. Characters are
  Unicode scalar values in the model but UTF-16 code units in Java, so the
  two agree on every decimal string but not on text outside the Basic
  Multilingual Plane (see "Left out").
- The class is named `GetNextPermNumHandler` although the file is
  `NextPermNum.java`. The model's module takes the file's name.

## Model

| member | source | states |
|---|---|---|
| NextPermNum.Swap | src/main/java/com/amazonaws/handler/NextPermNum.java:25-33 | the array afterwards is the old contents with cells `left` and `right` exchanged and every other cell unchanged; the same array is returned; its contents are a rearrangement of the old ones |
| Arrangements.ExchangeIsPermutation | src/main/java/com/amazonaws/handler/NextPermNum.java:28-30 | exchanging two positions of a sequence keeps the multiset of values |
| NextPermNum.Reverse | src/main/java/com/amazonaws/handler/NextPermNum.java:35-45 | the array afterwards equals `ReverseRange(old contents, left, right)`; nothing is read or written when `left >= right`; the same array is returned |
| Arrangements.ReverseRangeAt | src/main/java/com/amazonaws/handler/NextPermNum.java:38-42 | after reversing `[left..right]`, position `i` inside the range holds the old value at `left + right - i`, and every position outside holds its old value |
| Arrangements.ReversedAt | src/main/java/com/amazonaws/handler/NextPermNum.java:38-42 | position `k` of a reversed sequence holds the value at `|s| - 1 - k` |
| Arrangements.ReversedIsPermutation | src/main/java/com/amazonaws/handler/NextPermNum.java:75 | reversing keeps the multiset of values |
| Arrangements.ReversedNonIncreasing | src/main/java/com/amazonaws/handler/NextPermNum.java:75 | reversing a non-increasing sequence gives a non-decreasing one |
| NextPermNum.FindPivot | src/main/java/com/amazonaws/handler/NextPermNum.java:53-60 | the scan stops at `-1 <= last <= length - 2`; if `last >= 0` it is an ascent; everything after `last` is non-increasing, so with `last < 0` the whole array is |
| Arrangements.NonIncreasingExtend | src/main/java/com/amazonaws/handler/NextPermNum.java:55-59 | a non-ascent at `lo` in front of a non-increasing suffix gives a non-increasing suffix from `lo` (the pivot loop's invariant step) |
| NextPermNum.FindSuccessor | src/main/java/com/amazonaws/handler/NextPermNum.java:65-72 | the answer is the rightmost index after the pivot whose value exceeds the pivot's value (it exceeds it, and every later cell does not) |
| Arrangements.SuccessorIsLeastAbovePivot | src/main/java/com/amazonaws/handler/NextPermNum.java:65-72 | among the values after the pivot that exceed the pivot's value, the successor's is the smallest |
| NextPermNum.SwapThenReverseTail | src/main/java/com/amazonaws/handler/NextPermNum.java:74-75 | exchanging pivot and successor and then reversing from `last + 1` to the end gives `SwapAndReverse` of the old contents |
| NextPermNum.SwapAndReverseTail | src/main/java/com/amazonaws/handler/NextPermNum.java:74-75 | the array afterwards is `SwapAndReverse(old contents, last, nextGreater)` |
| Arrangements.ExchangedTailNonIncreasing | src/main/java/com/amazonaws/handler/NextPermNum.java:74 | after the exchange the part after the pivot is still non-increasing |
| Arrangements.SwapAndReverseShape | src/main/java/com/amazonaws/handler/NextPermNum.java:74-75 | the step's result is a rearrangement that keeps every cell before the pivot, holds the successor's value at the pivot, and is non-decreasing after it |
| Arrangements.NoRiseAfterPivot | src/main/java/com/amazonaws/handler/NextPermNum.java:53-60 | a rearrangement that agrees with the array up to a position after the pivot cannot hold a larger value there |
| Arrangements.RiseAtPivotIsAtLeastSuccessor | src/main/java/com/amazonaws/handler/NextPermNum.java:65-72 | a rearrangement that first rises above the array at the pivot holds there at least the successor's value |
| Arrangements.RiseAtPivotNotBelow | src/main/java/com/amazonaws/handler/NextPermNum.java:74-75 | such a rearrangement is not below the step's result |
| Arrangements.StepResultIsLeastAbove | src/main/java/com/amazonaws/handler/NextPermNum.java:74-75 | no rearrangement greater than the array is smaller than the step's result (minimality) |
| Arrangements.SwapAndReverseIsNext | src/main/java/com/amazonaws/handler/NextPermNum.java:53-77 | with the pivot and successor the scans find, the step's result is the next permutation: a rearrangement, greater, and with nothing in between |
| Arrangements.PivotStepOutcome | src/main/java/com/amazonaws/handler/NextPermNum.java:65-77 | when a pivot exists, the array has an ascent, is not the greatest arrangement, and the step yields its next permutation |
| Arrangements.NonIncreasingHasNoAscent | src/main/java/com/amazonaws/handler/NextPermNum.java:55-63 | a non-increasing array has no ascent |
| Arrangements.NonIncreasingIsGreatest | src/main/java/com/amazonaws/handler/NextPermNum.java:62-63 | a non-increasing array is the greatest arrangement of its values, so answering `false` there is right |
| Arrangements.NonIncreasingOutcome | src/main/java/com/amazonaws/handler/NextPermNum.java:50-63 | both `false` exits: a non-increasing array has no ascent and no greater arrangement |
| NextPermNum.FindNextPermutation | src/main/java/com/amazonaws/handler/NextPermNum.java:47-78 | answers `true` exactly when the array has an ascent, exactly when it is not the greatest arrangement; arrays of length 0 or 1 answer `false`; on `false` nothing changes; on `true` the array holds the next permutation of its old contents |
| Arrangements.NextPermutationIsUnique | src/main/java/com/amazonaws/handler/NextPermNum.java:47-78 | there is at most one next permutation, so the contract of `FindNextPermutation` determines the result |
| NextPermNum.DigitValues | src/main/java/com/amazonaws/handler/NextPermNum.java:80-87 | one value per character, and a decimal string gives values in `0..9` |
| NextPermNum.DigitValuesRoundTrip | src/main/java/com/amazonaws/handler/NextPermNum.java:80-87 | on a decimal string the conversion loses nothing: spelling its digit values gives the string back |
| NextPermNum.DigitCharsRoundTrip | src/main/java/com/amazonaws/handler/NextPermNum.java:80-87 | every digit sequence is the conversion of its spelling |
| NextPermNum.ConvertStringToArrayNum | src/main/java/com/amazonaws/handler/NextPermNum.java:80-87 | returns a fresh array holding `DigitValues(input)`: one cell per character, cell `i` being its code minus that of '0' |
| NextPermExamples.NextOf123 | src/main/java/com/amazonaws/handler/NextPermNum.java:47-78 | the next permutation of 1,2,3 is 1,3,2 |
| NextPermExamples.NextOf115 | src/main/java/com/amazonaws/handler/NextPermNum.java:47-78 | the next permutation of 1,1,5 is 1,5,1 |
| NextPermExamples.NextOf230241 | src/main/java/com/amazonaws/handler/NextPermNum.java:47-78 | the next permutation of 2,3,0,2,4,1 is 2,3,0,4,1,2 |
| NextPermExamples.NoSuccessors | src/main/java/com/amazonaws/handler/NextPermNum.java:50-63 | 3,2,1 and 0 and 5,5,5 have no ascent and no greater arrangement |
| NextPermExamples.CallOn123 | src/main/java/com/amazonaws/handler/NextPermNum.java:47-78 | a call of `FindNextPermutation` on 1,2,3 answers `true` and leaves 1,3,2 |

## Left out

- `handleRequest` (JSON parsing with Jackson, the Lambda `Context`, stream
  I/O and the gateway responses) is transport code and is not modelled. So
  are the rendering of the answer with `Arrays.toString` and the
  "No Answer" message.
- The range check against `MIN_INPUT_VAL`/`MAX_INPUT_VAL` is not modelled. The
  maximum does not fit the declared `int`, and the parsed value cannot reach
  it, so the check has no coherent behaviour.
- `OrderRequestStreamHandler.java` (status codes, the JSON error writer,
  `isNullOrEmpty`), `GetNextPermNum.java` and `GetNextPermNumResponse.java`
  are not part of this model. They are I/O helpers and data holders
  without logic.
- NextPermNum.Swap: indices outside the array, for which Java throws
  `ArrayIndexOutOfBoundsException`, are excluded by its precondition. Its
  only caller passes in-range indices.
- NextPermNum.Reverse: likewise, when `left < right` the range must lie
  inside the array. When `left >= right` it accepts any indices, as the Java
  loop does.
- NextPermNum.FindNextPermutation: a `null` array, on which Java throws
  `NullPointerException`, cannot occur, because Dafny arrays are never null.
- NextPermNum.DigitValues and NextPermNum.ConvertStringToArrayNum: the model
  counts Unicode scalar values (Dafny's `char`), where Java's `length()` and
  `charAt` count UTF-16 code units. So the two give different cell counts
  and values on text outside the Basic Multilingual Plane (one cell per
  character there, two per character in Java), and a Java string with an
  unpaired surrogate cannot be represented at all. On decimal strings, the
  only input the handler means to pass, they agree.
- Java's 32-bit `int` is modelled as an unbounded integer. The routines only
  compare and move values and do no arithmetic on them, so no wrap-around
  can arise. The character-minus-'0' subtraction also stays far inside the
  32-bit range.
