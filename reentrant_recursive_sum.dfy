/** The sum functions of src/ReentrantRecursiveSum.java. sumArray is pure recursion over an
    index; the non-reentrant and synchronized variants accumulate into the shared field
    nonReentrantSum, modelled single-threaded as a field of a class. All additions are Java
    int additions, so every result is the wrapped 32-bit value of the mathematical sum. */
module ReentrantRecursiveSum {
  import opened Int32

  /** The mathematical sum of a sequence. */
  function Sum(s: seq<int>): int
  {
    if s == [] then 0 else s[0] + Sum(s[1..])
  }

  /** The mathematical sum of arr[index..], and 0 once index is past the end. */
  function SumFrom(arr: seq<int32>, index: nat): int
  {
    if index >= |arr| then 0 else Sum(arr[index..])
  }

  /** sumArray(arr, index): arr[index] plus the rest, in int arithmetic. */
  function SumArrayFrom(arr: seq<int32>, index: nat): int32
    decreases |arr| - index
  {
    if index >= |arr| then 0 else Wrap(arr[index] + SumArrayFrom(arr, index + 1))
  }

  /** sumArray(arr): 0 for the empty array, otherwise the sum from index 0. A null array is
      not modelled. */
  function SumArray(arr: seq<int32>): int32
  {
    if |arr| == 0 then 0 else SumArrayFrom(arr, 0)
  }

  /** One step of the sum: arr[index..] is arr[index] followed by arr[index + 1..]. */
  lemma SumFromStep(arr: seq<int32>, index: nat)
    requires index < |arr|
    ensures SumFrom(arr, index) == arr[index] + SumFrom(arr, index + 1)
  {
    assert arr[index..][1..] == arr[index + 1..];
  }

  /** sumArray(arr, index) is the sum of arr[index..], wrapped to 32 bits; 0 past the end. */
  lemma {:induction false} SumArrayFromIsSum(arr: seq<int32>, index: nat)
    ensures SumArrayFrom(arr, index) == Wrap(SumFrom(arr, index))
    ensures index >= |arr| ==> SumArrayFrom(arr, index) == 0
    decreases |arr| - index
  {
    if index < |arr| {
      SumArrayFromIsSum(arr, index + 1);
      SumFromStep(arr, index);
      WrapAbsorbs(arr[index], SumFrom(arr, index + 1));
    }
  }

  /** sumArray(arr) is the sum of all elements, wrapped to 32 bits; it is exactly the sum when
      that fits an int, and 0 for the empty array. */
  lemma SumArrayIsSum(arr: seq<int32>)
    ensures SumArray(arr) == Wrap(Sum(arr))
    ensures MIN <= Sum(arr) <= MAX ==> SumArray(arr) == Sum(arr)
    ensures arr == [] ==> SumArray(arr) == 0
  {
    SumArrayFromIsSum(arr, 0);
    assert arr[0..] == arr;
    WrapOfInRange(0);
    if MIN <= Sum(arr) <= MAX {
      WrapOfInRange(Sum(arr));
    }
  }

  /** The class's static state: the accumulator the non-reentrant variants share. */
  class SharedSum {
    var nonReentrantSum: int32

    constructor ()
      ensures nonReentrantSum == 0
    {
      nonReentrantSum := 0;
    }

    /** sumArrayNonReentrant(arr, index): adds arr[index..] into the field one element at a
        time and returns the field's final value. */
    method SumArrayNonReentrantFrom(arr: seq<int32>, index: nat) returns (r: int32)
      modifies this
      ensures nonReentrantSum == Wrap(old(nonReentrantSum) + SumFrom(arr, index))
      ensures r == nonReentrantSum
      decreases |arr| - index
    {
      if index >= |arr| {
        WrapOfInRange(nonReentrantSum);
        return nonReentrantSum;
      }
      ghost var start: int := nonReentrantSum;
      nonReentrantSum := Wrap(nonReentrantSum + arr[index]);
      r := SumArrayNonReentrantFrom(arr, index + 1);
      SumFromStep(arr, index);
      WrapAbsorbs(SumFrom(arr, index + 1), start + arr[index]);
    }

    /** sumArrayNonReentrant(arr): reset the field, then sum from index 0. Run alone, it gives
        what sumArray gives and leaves that value in the field. */
    method SumArrayNonReentrant(arr: seq<int32>) returns (r: int32)
      modifies this
      ensures r == SumArray(arr) && nonReentrantSum == r
    {
      nonReentrantSum := 0;
      if |arr| == 0 {
        return 0;
      }
      r := SumArrayNonReentrantFrom(arr, 0);
      SumArrayFromIsSum(arr, 0);
    }

    /** sumArraySynchronized(arr, index): the same accumulation; the lock it takes is not
        modelled. */
    method SumArraySynchronizedFrom(arr: seq<int32>, index: nat) returns (r: int32)
      modifies this
      ensures nonReentrantSum == Wrap(old(nonReentrantSum) + SumFrom(arr, index))
      ensures r == nonReentrantSum
      decreases |arr| - index
    {
      if index >= |arr| {
        WrapOfInRange(nonReentrantSum);
        return nonReentrantSum;
      }
      ghost var start: int := nonReentrantSum;
      nonReentrantSum := Wrap(nonReentrantSum + arr[index]);
      r := SumArraySynchronizedFrom(arr, index + 1);
      SumFromStep(arr, index);
      WrapAbsorbs(SumFrom(arr, index + 1), start + arr[index]);
    }

    /** sumArraySynchronized(arr): reset the field, then sum from index 0. */
    method SumArraySynchronized(arr: seq<int32>) returns (r: int32)
      modifies this
      ensures r == SumArray(arr) && nonReentrantSum == r
    {
      nonReentrantSum := 0;
      if |arr| == 0 {
        return 0;
      }
      r := SumArraySynchronizedFrom(arr, 0);
      SumArrayFromIsSum(arr, 0);
    }
  }
}
