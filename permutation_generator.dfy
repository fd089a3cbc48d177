/** src/PermutationGenerator.java: permutations of a string by swap-and-backtrack recursion on a
    char array (with and without duplicate suppression) and by an iterative Heap's algorithm.
    Arrangements and DistinctArrangements are the lists the two recursive helpers append; the
    methods are proved to append exactly them and to restore the array. */
module PermutationGenerator {

  function Factorial(n: nat): (r: nat)
    ensures r >= 1
  {
    if n == 0 then 1 else n * Factorial(n - 1)
  }

  /** a with positions i and j exchanged. */
  function Swapped(a: seq<char>, i: nat, j: nat): (r: seq<char>)
    requires i < |a| && j < |a|
    ensures |r| == |a| && r[i] == a[j] && r[j] == a[i]
    ensures forall k | 0 <= k < |a| && k != i && k != j :: r[k] == a[k]
  {
    a[i := a[j]][j := a[i]]
  }

  /** A swap only reorders: the multiset of characters is unchanged. */
  lemma SwappedIsPermutation(a: seq<char>, i: nat, j: nat)
    requires i < |a| && j < |a|
    ensures multiset(Swapped(a, i, j)) == multiset(a)
  {
    var b := a[i := a[j]];
    assert multiset(b) == multiset(a) - multiset{a[i]} + multiset{a[j]};
  }

  /** Swapping twice at the same positions restores the sequence: the backtracking step. */
  lemma SwappedTwice(a: seq<char>, i: nat, j: nat)
    requires i < |a| && j < |a|
    ensures Swapped(Swapped(a, i, j), i, j) == a
  {
    var b := Swapped(Swapped(a, i, j), i, j);
    assert forall k | 0 <= k < |a| :: b[k] == a[k];
  }

  /** s is a rearrangement of a that keeps the first k positions: what the recursion started at
      index k can produce. For k == 0, s is a permutation of a. */
  ghost predicate Rearranges(s: string, a: string, k: nat)
    requires k <= |a|
  {
    |s| == |a| && s[..k] == a[..k] && multiset(s[k..]) == multiset(a[k..])
  }

  /** No element occurs twice. */
  predicate NoRepeats(xs: seq<string>)
  {
    forall i, j | 0 <= i < j < |xs| :: xs[i] != xs[j]
  }

  /** What permuteWithDuplicates(arr, k, results) appends when arr holds a: a itself at the last
      index, otherwise, for each i from k on, everything the call at k + 1 appends after
      swapping positions k and i. */
  function Arrangements(a: string, k: nat): seq<string>
    requires k < |a|
    decreases |a| - k, 1
  {
    if k == |a| - 1 then [a] else ArrangementsUpTo(a, k, |a|)
  }

  /** The first i - k rounds of the loop in permuteWithDuplicates. */
  function ArrangementsUpTo(a: string, k: nat, i: nat): seq<string>
    requires k < |a| - 1 && k <= i <= |a|
    decreases |a| - k, 0, i
  {
    if i == k then []
    else ArrangementsUpTo(a, k, i - 1) + Arrangements(Swapped(a, k, i - 1), k + 1)
  }

  /** What permuteNoDuplicates(arr, k, results) appends: as Arrangements, but a round is skipped
      when its character already stood at position k in an earlier round. */
  function DistinctArrangements(a: string, k: nat): seq<string>
    requires k < |a|
    decreases |a| - k, 1
  {
    if k == |a| - 1 then [a] else DistinctArrangementsUpTo(a, k, |a|)
  }

  /** The first i - k rounds of the loop in permuteNoDuplicates; used holds a[k..i]. */
  function DistinctArrangementsUpTo(a: string, k: nat, i: nat): seq<string>
    requires k < |a| - 1 && k <= i <= |a|
    decreases |a| - k, 0, i
  {
    if i == k then []
    else if a[i - 1] in a[k..i - 1] then DistinctArrangementsUpTo(a, k, i - 1)
    else DistinctArrangementsUpTo(a, k, i - 1) + DistinctArrangements(Swapped(a, k, i - 1), k + 1)
  }

  /** With allowDuplicates, the recursion started at k appends (|a| - k)! strings. */
  lemma {:induction false} ArrangementsCount(a: string, k: nat)
    requires k < |a|
    ensures |Arrangements(a, k)| == Factorial(|a| - k)
    decreases |a| - k, 1
  {
    if k < |a| - 1 {
      ArrangementsUpToCount(a, k, |a|);
    }
  }

  /** Each finished round of the loop appends (|a| - k - 1)! strings. */
  lemma {:induction false} ArrangementsUpToCount(a: string, k: nat, i: nat)
    requires k < |a| - 1 && k <= i <= |a|
    ensures |ArrangementsUpTo(a, k, i)| == (i - k) * Factorial(|a| - k - 1)
    decreases |a| - k, 0, i
  {
    if i > k {
      ArrangementsUpToCount(a, k, i - 1);
      ArrangementsCount(Swapped(a, k, i - 1), k + 1);
      assert (i - 1 - k) * Factorial(|a| - k - 1) + Factorial(|a| - k - 1)
          == (i - k) * Factorial(|a| - k - 1);
    }
  }

  /** Splitting off the character at k. */
  lemma SplitAt(s: string, k: nat)
    requires k < |s|
    ensures multiset(s[k..]) == multiset{s[k]} + multiset(s[k + 1..])
  {
    assert s[k..] == [s[k]] + s[k + 1..];
  }

  /** Swapping k with a later position keeps the prefix before k and the multiset after it. */
  lemma SwapKeepsPrefix(a: string, k: nat, i: nat)
    requires k <= i < |a|
    ensures Swapped(a, k, i)[..k] == a[..k]
    ensures multiset(Swapped(a, k, i)[k..]) == multiset(a[k..])
  {
    var b := Swapped(a, k, i);
    SwappedIsPermutation(a, k, i);
    assert b == b[..k] + b[k..] && a == a[..k] + a[k..];
    assert b[..k] == a[..k];
    assert multiset(b) == multiset(b[..k]) + multiset(b[k..]);
    assert multiset(a) == multiset(a[..k]) + multiset(a[k..]);
  }

  /** A string the call at k + 1 can produce after swapping k and i is one the call at k can
      produce, and it has a[i] at position k. */
  lemma SwapStepSound(s: string, a: string, k: nat, i: nat)
    requires k <= i < |a| && k < |a| - 1
    requires Rearranges(s, Swapped(a, k, i), k + 1)
    ensures Rearranges(s, a, k) && s[k] == a[i]
  {
    var b := Swapped(a, k, i);
    SwapKeepsPrefix(a, k, i);
    assert s[..k + 1][k] == b[..k + 1][k];
    assert s[..k] == s[..k + 1][..k] && b[..k] == b[..k + 1][..k];
    SplitAt(s, k);
    SplitAt(b, k);
  }

  /** Conversely, a rearrangement s whose position k holds a[i] is produced after swapping k
      and i. */
  lemma SwapStepComplete(s: string, a: string, k: nat, i: nat)
    requires k <= i < |a| && k < |a| - 1
    requires Rearranges(s, a, k) && a[i] == s[k]
    ensures Rearranges(s, Swapped(a, k, i), k + 1)
  {
    var b := Swapped(a, k, i);
    SwapKeepsPrefix(a, k, i);
    assert s[..k + 1] == s[..k] + [s[k]];
    assert b[..k + 1] == b[..k] + [b[k]];
    SplitAt(s, k);
    SplitAt(b, k);
    var m := multiset{s[k]};
    assert m + multiset(s[k + 1..]) == m + multiset(b[k + 1..]);
    assert (m + multiset(s[k + 1..])) - m == multiset(s[k + 1..]);
    assert (m + multiset(b[k + 1..])) - m == multiset(b[k + 1..]);
  }

  /** At the last index only a itself keeps the prefix. */
  lemma LastPositionFixed(s: string, a: string)
    requires |a| > 0 && Rearranges(s, a, |a| - 1)
    ensures s == a
  {
    var k := |a| - 1;
    assert s[k..] == [s[k]] && a[k..] == [a[k]];
    assert s[k] in multiset(a[k..]);
    assert s == s[..k] + [s[k]] && a == a[..k] + [a[k]];
  }

  /** The first position from lo on that holds c. */
  lemma {:induction false} FirstOccurrence(a: string, lo: nat, c: char) returns (i: nat)
    requires lo <= |a| && c in a[lo..]
    ensures lo <= i < |a| && a[i] == c && c !in a[lo..i]
    decreases |a| - lo
  {
    if a[lo] == c {
      i := lo;
    } else {
      assert c in a[lo + 1..] by {
        var j :| 0 <= j < |a[lo..]| && a[lo..][j] == c;
        assert a[lo + 1..][j - 1] == c;
      }
      i := FirstOccurrence(a, lo + 1, c);
      assert a[lo..i] == [a[lo]] + a[lo + 1..i];
    }
  }

  /** Every string permuteWithDuplicates appends is a rearrangement of the array it started from. */
  lemma {:induction false} ArrangementsSound(a: string, k: nat)
    requires k < |a|
    ensures forall s | s in Arrangements(a, k) :: Rearranges(s, a, k)
    decreases |a| - k, 1
  {
    if k < |a| - 1 {
      ArrangementsUpToSound(a, k, |a|);
    }
  }

  lemma {:induction false} ArrangementsUpToSound(a: string, k: nat, i: nat)
    requires k < |a| - 1 && k <= i <= |a|
    ensures forall s | s in ArrangementsUpTo(a, k, i) :: Rearranges(s, a, k)
    decreases |a| - k, 0, i
  {
    if i > k {
      ArrangementsUpToSound(a, k, i - 1);
      ArrangementsSound(Swapped(a, k, i - 1), k + 1);
      forall s | s in Arrangements(Swapped(a, k, i - 1), k + 1)
        ensures Rearranges(s, a, k)
      {
        SwapStepSound(s, a, k, i - 1);
      }
    }
  }

  /** Every rearrangement of a that keeps its first k positions is appended. */
  lemma {:induction false} ArrangementsComplete(a: string, k: nat, s: string)
    requires k < |a| && Rearranges(s, a, k)
    ensures s in Arrangements(a, k)
    decreases |a| - k
  {
    if k == |a| - 1 {
      LastPositionFixed(s, a);
    } else {
      SplitAt(s, k);
      assert s[k] in multiset(a[k..]);
      var i := FirstOccurrence(a, k, s[k]);
      SwapStepComplete(s, a, k, i);
      ArrangementsComplete(Swapped(a, k, i), k + 1, s);
      RoundIsKept(a, k, i, |a|, s);
    }
  }

  /** What round i appends stays in the list of every later round. */
  lemma {:induction false} RoundIsKept(a: string, k: nat, i: nat, j: nat, s: string)
    requires k < |a| - 1 && k <= i < j <= |a|
    requires s in Arrangements(Swapped(a, k, i), k + 1)
    ensures s in ArrangementsUpTo(a, k, j)
    decreases j
  {
    if j > i + 1 {
      RoundIsKept(a, k, i, j - 1, s);
    }
  }

  /** Every string permuteNoDuplicates appends is a rearrangement of the array it started from. */
  lemma {:induction false} DistinctArrangementsSound(a: string, k: nat)
    requires k < |a|
    ensures forall s | s in DistinctArrangements(a, k) :: Rearranges(s, a, k)
    decreases |a| - k, 1
  {
    if k < |a| - 1 {
      DistinctArrangementsUpToSound(a, k, |a|);
    }
  }

  /** After the rounds up to i, every appended string holds one of a[k..i] at position k. */
  lemma {:induction false} DistinctArrangementsUpToSound(a: string, k: nat, i: nat)
    requires k < |a| - 1 && k <= i <= |a|
    ensures forall s | s in DistinctArrangementsUpTo(a, k, i) :: Rearranges(s, a, k) && s[k] in a[k..i]
    decreases |a| - k, 0, i
  {
    if i > k {
      var earlier := DistinctArrangementsUpTo(a, k, i - 1);
      DistinctArrangementsUpToSound(a, k, i - 1);
      assert a[k..i] == a[k..i - 1] + [a[i - 1]];
      if a[i - 1] !in a[k..i - 1] {
        var round := DistinctArrangements(Swapped(a, k, i - 1), k + 1);
        RoundHead(a, k, i - 1);
        assert DistinctArrangementsUpTo(a, k, i) == earlier + round;
      }
    }
  }

  /** Every rearrangement of a that keeps its first k positions is appended by
      permuteNoDuplicates too: the round of the first position holding s[k] is never skipped. */
  lemma {:induction false} DistinctArrangementsComplete(a: string, k: nat, s: string)
    requires k < |a| && Rearranges(s, a, k)
    ensures s in DistinctArrangements(a, k)
    decreases |a| - k
  {
    if k == |a| - 1 {
      LastPositionFixed(s, a);
    } else {
      SplitAt(s, k);
      assert s[k] in multiset(a[k..]);
      var i := FirstOccurrence(a, k, s[k]);
      SwapStepComplete(s, a, k, i);
      DistinctArrangementsComplete(Swapped(a, k, i), k + 1, s);
      DistinctRoundIsKept(a, k, i, |a|, s);
    }
  }

  /** What an unskipped round i appends stays in the list of every later round. */
  lemma {:induction false} DistinctRoundIsKept(a: string, k: nat, i: nat, j: nat, s: string)
    requires k < |a| - 1 && k <= i < j <= |a| && a[i] !in a[k..i]
    requires s in DistinctArrangements(Swapped(a, k, i), k + 1)
    ensures s in DistinctArrangementsUpTo(a, k, j)
    decreases j
  {
    if j > i + 1 {
      DistinctRoundIsKept(a, k, i, j - 1, s);
    }
  }

  /** Every string of the round after swapping k and i rearranges a past k and holds a[i] at
      position k. */
  lemma RoundHead(a: string, k: nat, i: nat)
    requires k <= i < |a| && k < |a| - 1
    ensures forall y | y in DistinctArrangements(Swapped(a, k, i), k + 1) :: Rearranges(y, a, k) && y[k] == a[i]
    decreases |a| - k - 1, 2
  {
    DistinctArrangementsSound(Swapped(a, k, i), k + 1);
    forall y | y in DistinctArrangements(Swapped(a, k, i), k + 1)
      ensures Rearranges(y, a, k) && y[k] == a[i]
    {
      SwapStepSound(y, a, k, i);
    }
  }

  /** An unskipped round appends nothing an earlier round appended: its strings hold a[i] at
      position k, the earlier ones a character of a[k..i]. */
  lemma RoundsDisjoint(a: string, k: nat, i: nat)
    requires k < |a| - 1 && k <= i < |a| && a[i] !in a[k..i]
    ensures forall x | x in DistinctArrangementsUpTo(a, k, i) :: x !in DistinctArrangements(Swapped(a, k, i), k + 1)
  {
    DistinctArrangementsUpToSound(a, k, i);
    RoundHead(a, k, i);
  }

  /** Two lists without repeats and without a common element concatenate without repeats. */
  lemma ConcatNoRepeats(xs: seq<string>, ys: seq<string>)
    requires NoRepeats(xs) && NoRepeats(ys)
    requires forall x | x in xs :: x !in ys
    ensures NoRepeats(xs + ys)
  {
    var zs := xs + ys;
    forall i, j | 0 <= i < j < |zs|
      ensures zs[i] != zs[j]
    {
      if i < |xs| && j >= |xs| {
        assert zs[i] in xs && zs[j] == ys[j - |xs|];
      }
    }
  }

  /** permuteNoDuplicates appends no string twice. */
  lemma {:induction false} DistinctArrangementsNoRepeats(a: string, k: nat)
    requires k < |a|
    ensures NoRepeats(DistinctArrangements(a, k))
    decreases |a| - k, 1
  {
    if k < |a| - 1 {
      DistinctArrangementsUpToNoRepeats(a, k, |a|);
    }
  }

  lemma {:induction false} DistinctArrangementsUpToNoRepeats(a: string, k: nat, i: nat)
    requires k < |a| - 1 && k <= i <= |a|
    ensures NoRepeats(DistinctArrangementsUpTo(a, k, i))
    decreases |a| - k, 0, i
  {
    if i > k {
      DistinctArrangementsUpToNoRepeats(a, k, i - 1);
      if a[i - 1] !in a[k..i - 1] {
        var earlier := DistinctArrangementsUpTo(a, k, i - 1);
        var round := DistinctArrangements(Swapped(a, k, i - 1), k + 1);
        RoundsDisjoint(a, k, i - 1);
        DistinctArrangementsNoRepeats(Swapped(a, k, i - 1), k + 1);
        ConcatNoRepeats(earlier, round);
      }
    }
  }

  /** swap: exchange positions i and j of the array. */
  method Swap(arr: array<char>, i: nat, j: nat)
    requires i < arr.Length && j < arr.Length
    modifies arr
    ensures arr[..] == Swapped(old(arr[..]), i, j)
  {
    var tmp := arr[i];
    arr[i] := arr[j];
    arr[j] := tmp;
  }

  /** permuteWithDuplicates: appends Arrangements of the array's contents to results, and
      leaves the array as it found it. */
  method PermuteWithDuplicates(arr: array<char>, index: nat, results: seq<string>) returns (out: seq<string>)
    requires index < arr.Length
    modifies arr
    ensures arr[..] == old(arr[..])
    ensures out == results + Arrangements(old(arr[..]), index)
    decreases arr.Length - index
  {
    if index == arr.Length - 1 {
      return results + [arr[..]];
    }
    ghost var a := arr[..];
    out := results;
    var i := index;
    while i < arr.Length
      invariant index <= i <= arr.Length
      invariant arr[..] == a
      invariant out == results + ArrangementsUpTo(a, index, i)
    {
      Swap(arr, index, i);
      out := PermuteWithDuplicates(arr, index + 1, out);
      Swap(arr, index, i);
      SwappedTwice(a, index, i);
      i := i + 1;
    }
  }

  /** The characters of a[k..i]: the set used holds after the rounds up to i. */
  ghost function Tried(a: string, k: nat, i: nat): set<char>
    requires k <= i <= |a|
    decreases i
  {
    if i == k then {} else Tried(a, k, i - 1) + {a[i - 1]}
  }

  /** A character was tried exactly when it occurs in a[k..i]. */
  lemma {:induction false} TriedHas(a: string, k: nat, i: nat, c: char)
    requires k <= i <= |a|
    ensures c in Tried(a, k, i) <==> c in a[k..i]
    decreases i
  {
    if i > k {
      TriedHas(a, k, i - 1, c);
      assert a[k..i] == a[k..i - 1] + [a[i - 1]];
    }
  }

  /** permuteNoDuplicates: as permuteWithDuplicates, but a character already tried at index
      (kept in used) is not tried again; appends DistinctArrangements. */
  method PermuteNoDuplicates(arr: array<char>, index: nat, results: seq<string>) returns (out: seq<string>)
    requires index < arr.Length
    modifies arr
    ensures arr[..] == old(arr[..])
    ensures out == results + DistinctArrangements(old(arr[..]), index)
    decreases arr.Length - index, 1
  {
    if index == arr.Length - 1 {
      return results + [arr[..]];
    }
    ghost var a := arr[..];
    out := results;
    var used: set<char> := {};
    var i := index;
    while i < arr.Length
      invariant index <= i <= arr.Length
      invariant arr[..] == a
      invariant used == Tried(a, index, i)
      invariant out == results + DistinctArrangementsUpTo(a, index, i)
    {
      TriedHas(a, index, i, a[i]);
      ghost var done := DistinctArrangementsUpTo(a, index, i);
      if arr[i] in used {
        assert DistinctArrangementsUpTo(a, index, i + 1) == done;
        i := i + 1;
        continue;
      }
      ghost var round := DistinctArrangements(Swapped(a, index, i), index + 1);
      assert DistinctArrangementsUpTo(a, index, i + 1) == done + round;
      used := used + {arr[i]};
      out := DistinctRound(arr, index, i, out);
      assert out == (results + done) + round == results + (done + round);
      i := i + 1;
    }
  }

  /** One unskipped round of permuteNoDuplicates: swap index and i, recurse at index + 1, swap
      back. */
  method DistinctRound(arr: array<char>, index: nat, i: nat, results: seq<string>) returns (out: seq<string>)
    requires index < arr.Length - 1 && index <= i < arr.Length
    modifies arr
    ensures arr[..] == old(arr[..])
    ensures out == results + DistinctArrangements(Swapped(old(arr[..]), index, i), index + 1)
    decreases arr.Length - index, 0
  {
    ghost var a := arr[..];
    Swap(arr, index, i);
    out := PermuteNoDuplicates(arr, index + 1, results);
    Swap(arr, index, i);
    SwappedTwice(a, index, i);
  }

  /** What generatePermutations(input, allowDuplicates) returns: nothing for the empty string,
      otherwise the list the chosen recursive helper builds from index 0. */
  function Generated(input: string, allowDuplicates: bool): seq<string>
  {
    if input == [] then []
    else if allowDuplicates then Arrangements(input, 0)
    else DistinctArrangements(input, 0)
  }

  /** generatePermutations(input, allowDuplicates). A null input is not modelled. */
  method GeneratePermutations(input: string, allowDuplicates: bool) returns (results: seq<string>)
    ensures results == Generated(input, allowDuplicates)
  {
    results := [];
    if input == [] {
      return;
    }
    var chars := new char[|input|](j requires 0 <= j < |input| => input[j]);
    assert chars[..] == input;
    if allowDuplicates {
      results := PermuteWithDuplicates(chars, 0, results);
    } else {
      results := PermuteNoDuplicates(chars, 0, results);
    }
  }

  /** generatePermutations(input): the same without duplicates. */
  method GeneratePermutationsDistinct(input: string) returns (results: seq<string>)
    ensures results == Generated(input, false)
  {
    results := GeneratePermutations(input, false);
  }

  /** The recursive generator's promise: for a non-empty input it returns exactly the
      permutations of the input, n! of them with duplicates allowed and none twice without. */
  lemma GeneratedArePermutations(input: string, allowDuplicates: bool)
    ensures input == [] ==> Generated(input, allowDuplicates) == []
    ensures input != [] ==> forall s :: s in Generated(input, allowDuplicates) <==>
                                       |s| == |input| && multiset(s) == multiset(input)
    ensures input != [] && allowDuplicates ==> |Generated(input, true)| == Factorial(|input|)
    ensures !allowDuplicates ==> NoRepeats(Generated(input, false))
  {
    if input != [] {
      forall s
        ensures s in Generated(input, allowDuplicates) <==> |s| == |input| && multiset(s) == multiset(input)
      {
        assert s[..0] == input[..0] && s[0..] == s && input[0..] == input;
        if allowDuplicates {
          ArrangementsSound(input, 0);
          if |s| == |input| && multiset(s) == multiset(input) {
            ArrangementsComplete(input, 0, s);
          }
        } else {
          DistinctArrangementsSound(input, 0);
          if |s| == |input| && multiset(s) == multiset(input) {
            DistinctArrangementsComplete(input, 0, s);
          }
        }
      }
      ArrangementsCount(input, 0);
      DistinctArrangementsNoRepeats(input, 0);
    }
  }

  /** How far Heap's loop has got, read as a mixed-radix number whose digit j (weight j!) is
      counters[j]; a digit below the loop's position i has finished its round and counts as
      full (j). Each emission adds one; the loop ends at n! - 1. */
  ghost function Progress(c: seq<int>, i: nat): int
  {
    if c == [] then 0
    else Progress(c[..|c| - 1], i) + (if |c| - 1 < i then |c| - 1 else c[|c| - 1]) * Factorial(|c| - 1)
  }

  /** With every digit full, the number is n! - 1. */
  lemma {:induction false} ProgressFull(c: seq<int>, i: nat)
    requires |c| <= i
    ensures Progress(c, i) == Factorial(|c|) - 1
    decreases |c|
  {
    if c != [] {
      var m := |c| - 1;
      ProgressFull(c[..m], i);
      assert Factorial(m) - 1 + m * Factorial(m) == (m + 1) * Factorial(m) - 1;
    }
  }

  /** With every digit in range, the number is at most n! - 1. */
  lemma {:induction false} ProgressBound(c: seq<int>, i: nat)
    requires forall j | 0 <= j < |c| :: 0 <= c[j] <= j
    ensures 0 <= Progress(c, i) <= Factorial(|c|) - 1
    decreases |c|
  {
    if c != [] {
      var m := |c| - 1;
      assert forall j | 0 <= j < m :: c[..m][j] == c[j];
      ProgressBound(c[..m], i);
      var d := if m < i then m else c[m];
      var f := Factorial(m);
      ScaleBound(d, m, f);
      FactorialStep(m);
    }
  }

  /** (m + 1)! == m * m! + m! */
  lemma FactorialStep(m: nat)
    ensures Factorial(m + 1) == m * Factorial(m) + Factorial(m)
  {
  }

  lemma ScaleBound(d: int, m: int, f: int)
    requires 0 <= d <= m && f >= 0
    ensures 0 <= d * f <= m * f
  {
  }

  /** All digits zero: nothing done yet. */
  lemma {:induction false} ProgressZero(c: seq<int>)
    requires forall j | 0 <= j < |c| :: c[j] == 0
    ensures Progress(c, 0) == 0
    decreases |c|
  {
    if c != [] {
      ProgressZero(c[..|c| - 1]);
    }
  }

  /** The else branch: resetting a full digit and moving on leaves the number unchanged. */
  lemma {:induction false} ProgressCarry(c: seq<int>, i: nat)
    requires i < |c| && c[i] == i
    ensures Progress(c[i := 0], i + 1) == Progress(c, i)
    decreases |c|
  {
    var m := |c| - 1;
    if i == m {
      assert c[i := 0][..m] == c[..m];
      ProgressFull(c[..m], i);
      ProgressFull(c[..m], i + 1);
    } else {
      assert c[i := 0][..m] == c[..m][i := 0];
      ProgressCarry(c[..m], i);
    }
  }

  /** The if branch: bumping digit i with every lower digit zero and restarting at 0 adds one. */
  lemma {:induction false} ProgressTick(c: seq<int>, i: nat)
    requires i < |c| && c[i] < i
    requires forall j | 0 <= j < i :: c[j] == 0
    ensures Progress(c[i := c[i] + 1], 0) == Progress(c, i) + 1
    decreases |c|
  {
    var m, bumped := |c| - 1, c[i := c[i] + 1];
    if i == m {
      ProgressTickTop(c, i);
    } else {
      assert bumped[..m] == c[..m][i := c[i] + 1];
      ProgressTick(c[..m], i);
      assert Progress(bumped, 0) == Progress(c[..m][i := c[i] + 1], 0) + c[m] * Factorial(m);
    }
  }

  /** ProgressTick when i is the top digit: the lower digits go from full to zero. */
  lemma ProgressTickTop(c: seq<int>, i: nat)
    requires i == |c| - 1 && c[i] < i
    requires forall j | 0 <= j < i :: c[j] == 0
    ensures Progress(c[i := c[i] + 1], 0) == Progress(c, i) + 1
  {
    var bumped, low, f := c[i := c[i] + 1], c[..i], Factorial(i);
    assert bumped[..i] == low;
    assert forall j | 0 <= j < |low| :: low[j] == 0;
    ProgressZero(low);
    ProgressFull(low, i);
    assert Progress(bumped, 0) == (c[i] + 1) * f;
    assert Progress(c, i) == f - 1 + c[i] * f;
    assert (c[i] + 1) * f == c[i] * f + f;
  }

  /** The strings of xs in order of first occurrence, each once: a HashSet copied back. */
  function Distinct(xs: seq<string>): (r: seq<string>)
    ensures forall x :: x in r <==> x in xs
    ensures NoRepeats(r) && |r| <= |xs|
  {
    if xs == [] then []
    else
      var d := Distinct(xs[..|xs| - 1]);
      var x := xs[|xs| - 1];
      assert forall y | y in xs :: y in xs[..|xs| - 1] || y == x;
      if x in d then d else d + [x]
  }

  /** generatePermutationsIterative(input, allowDuplicates): Heap's algorithm driven by a
      counters array, then, without duplicates, the HashSet pass. With duplicates allowed it
      returns n! strings; without, each of them once. Either way it returns exactly the strings
      the recursive generator does: every permutation of the input and nothing else. */
  method GeneratePermutationsIterative(input: string, allowDuplicates: bool) returns (results: seq<string>)
    ensures input == [] ==> results == []
    ensures forall s | s in results :: |s| == |input| && multiset(s) == multiset(input)
    ensures input != [] ==> forall s | |s| == |input| && multiset(s) == multiset(input) :: s in results
    ensures forall s :: s in results <==> s in Generated(input, allowDuplicates)
    ensures allowDuplicates ==> |results| == if input == [] then 0 else Factorial(|input|)
    ensures !allowDuplicates ==> NoRepeats(results) && |results| <= Factorial(|input|)
  {
    GeneratedArePermutations(input, allowDuplicates);
    results := [];
    if input == [] {
      return;
    }
    results := HeapEmissions(input);
    forall s | |s| == |input| && multiset(s) == multiset(input) ensures s in results {
      HeapOrderComplete(|input|, input, s);
    }
    if !allowDuplicates {
      results := Distinct(results);
    }
  }

  /** generatePermutationsIterative(input): the iterative generator without duplicates. */
  method GeneratePermutationsIterativeDistinct(input: string) returns (results: seq<string>)
    ensures input == [] ==> results == []
    ensures forall s | s in results :: |s| == |input| && multiset(s) == multiset(input)
    ensures input != [] ==> forall s | |s| == |input| && multiset(s) == multiset(input) :: s in results
    ensures forall s :: s in results <==> s in Generated(input, false)
    ensures NoRepeats(results) && |results| <= Factorial(|input|)
  {
    results := GeneratePermutationsIterative(input, false);
  }

  /** The position Heap's algorithm exchanges with k - 1 between rounds j and j + 1 of a level
      of size k: j when k is even, 0 when k is odd. The loop's `i % 2 == 0 ? 0 : counters[i]`
      is this for k == i + 1. */
  function HeapPartner(k: nat, j: nat): nat
  {
    if k % 2 == 0 then j else 0
  }

  /** Heap's algorithm in its recursive form, generate(k, a), which the counters of the loop
      simulate (counters[i] is the round of level i + 1). RoundStart is the array at the start of
      round j: a for round 0; for round j + 1, the array round j leaves, with positions
      HeapPartner(k, j) and k - 1 exchanged. */
  ghost function RoundStart(k: nat, a: seq<char>, j: nat): (r: seq<char>)
    requires 2 <= k <= |a| && j < k
    ensures |r| == |a|
    decreases k, 0, j
  {
    if j == 0 then a
    else Swapped(HeapFinal(k - 1, RoundStart(k, a, j - 1)), HeapPartner(k, j - 1), k - 1)
  }

  /** The array generate(k, a) leaves behind. */
  ghost function HeapFinal(k: nat, a: seq<char>): (r: seq<char>)
    requires 1 <= k <= |a|
    ensures |r| == |a|
    decreases k, 1, 0
  {
    if k == 1 then a else HeapFinal(k - 1, RoundStart(k, a, k - 1))
  }

  /** What generate(k, a) emits: a itself for k == 1, otherwise what its k rounds emit. */
  ghost function HeapOrder(k: nat, a: seq<char>): (r: seq<string>)
    requires 1 <= k <= |a|
    ensures |r| >= 1
    decreases k, 3, 0
  {
    if k == 1 then [a] else HeapRounds(k, a, k)
  }

  /** What rounds 0 .. r - 1 of generate(k, a) emit: each is generate(k - 1) on its start. */
  ghost function HeapRounds(k: nat, a: seq<char>, r: nat): (rs: seq<string>)
    requires 2 <= k <= |a| && r <= k
    ensures |rs| >= r
    decreases k, 2, r
  {
    if r == 0 then [] else HeapRounds(k, a, r - 1) + HeapOrder(k - 1, RoundStart(k, a, r - 1))
  }

  /** What generate(k, ·) still emits once round j has ended with the array s. */
  ghost function RestRounds(k: nat, j: nat, s: seq<char>): seq<string>
    requires 1 <= k <= |s| && j < k
    decreases k - j
  {
    if j == k - 1 then []
    else
      var t := Swapped(s, HeapPartner(k, j), k - 1);
      HeapOrder(k - 1, t) + RestRounds(k, j + 1, HeapFinal(k - 1, t))
  }

  /** The array generate(k, ·) leaves once round j has ended with the array s. */
  ghost function RestFinal(k: nat, j: nat, s: seq<char>): (r: seq<char>)
    requires 1 <= k <= |s| && j < k
    ensures |r| == |s|
    decreases k - j
  {
    if j == k - 1 then s
    else RestFinal(k, j + 1, HeapFinal(k - 1, Swapped(s, HeapPartner(k, j), k - 1)))
  }

  /** What Heap's loop still emits from the state (a, c, i), read through the recursion: level
      i + 1 has finished round c[i] with the array a; its remaining rounds come next, then those
      of every level above it. */
  ghost function Pending(a: seq<char>, c: seq<int>, i: nat): seq<string>
    requires |a| == |c| && i <= |c| && CountersInRange(c)
    decreases |c| - i
  {
    if i == |c| then []
    else RestRounds(i + 1, c[i], a) + Pending(RestFinal(i + 1, c[i], a), c, i + 1)
  }

  /** The rounds from j + 1 on are RestRounds of the array round j leaves, and so is the final
      array. */
  lemma {:induction false} RestMatchesRounds(k: nat, a: seq<char>, j: nat)
    requires 2 <= k <= |a| && j < k
    ensures HeapRounds(k, a, k) == HeapRounds(k, a, j + 1) + RestRounds(k, j, HeapFinal(k - 1, RoundStart(k, a, j)))
    ensures HeapFinal(k, a) == RestFinal(k, j, HeapFinal(k - 1, RoundStart(k, a, j)))
    decreases k - j, 1
  {
    if j < k - 1 {
      RestMatchesLater(k, a, j);
    }
  }

  lemma {:induction false} RestMatchesLater(k: nat, a: seq<char>, j: nat)
    requires 2 <= k <= |a| && j < k - 1
    ensures HeapRounds(k, a, k) == HeapRounds(k, a, j + 1) + RestRounds(k, j, HeapFinal(k - 1, RoundStart(k, a, j)))
    ensures HeapFinal(k, a) == RestFinal(k, j, HeapFinal(k - 1, RoundStart(k, a, j)))
    decreases k - j, 0
  {
    RestMatchesRounds(k, a, j + 1);
    var s := HeapFinal(k - 1, RoundStart(k, a, j));
    var t := RoundStart(k, a, j + 1);
    RoundAfter(k, a, j);
    RestStep(k, j, s, t);
    Regroup3(HeapRounds(k, a, k), HeapRounds(k, a, j + 1), HeapOrder(k - 1, t), RestRounds(k, j + 1, HeapFinal(k - 1, t)), RestRounds(k, j, s));
  }

  /** Round j + 1 starts from the array round j leaves, with its partner exchanged, and is
      emitted after the first j + 1 rounds. */
  lemma RoundAfter(k: nat, a: seq<char>, j: nat)
    requires 2 <= k <= |a| && j < k - 1
    ensures RoundStart(k, a, j + 1) == Swapped(HeapFinal(k - 1, RoundStart(k, a, j)), HeapPartner(k, j), k - 1)
    ensures HeapRounds(k, a, j + 2) == HeapRounds(k, a, j + 1) + HeapOrder(k - 1, RoundStart(k, a, j + 1))
  {
  }

  /** The bookkeeping of RestMatchesLater on sequences. */
  lemma Regroup3(whole: seq<string>, before: seq<string>, order: seq<string>, after: seq<string>, rest: seq<string>)
    requires whole == (before + order) + after && rest == order + after
    ensures whole == before + rest
  {
  }

  /** generate(k, a) emits a first. */
  lemma {:induction false} HeapOrderHead(k: nat, a: seq<char>)
    requires 1 <= k <= |a|
    ensures |HeapOrder(k, a)| > 0 && HeapOrder(k, a)[0] == a
    decreases k, 1
  {
    if k > 1 {
      HeapRoundsHead(k, a, k);
    }
  }

  /** The first round of generate(k, a) emits a first. */
  lemma {:induction false} HeapRoundsHead(k: nat, a: seq<char>, r: nat)
    requires 2 <= k <= |a| && 1 <= r <= k
    ensures |HeapRounds(k, a, r)| > 0 && HeapRounds(k, a, r)[0] == a
    decreases k, 0, r
  {
    if r == 1 {
      HeapOrderHead(k - 1, a);
    } else {
      HeapRoundsHead(k, a, r - 1);
    }
  }

  /** Pending reads only the counters from i on. */
  lemma {:induction false} PendingAbove(a: seq<char>, c: seq<int>, d: seq<int>, i: nat)
    requires |a| == |c| == |d| && i <= |c| && CountersInRange(c) && CountersInRange(d)
    requires forall p | i <= p < |c| :: c[p] == d[p]
    ensures Pending(a, c, i) == Pending(a, d, i)
    decreases |c| - i
  {
    if i < |c| {
      PendingAbove(RestFinal(i + 1, c[i], a), c, d, i + 1);
    }
  }

  /** From i == 0 with the counters below m reset, the loop emits the rest of generate(m, b)
      and then continues at level m + 1 with the array generate(m, b) leaves. */
  lemma {:induction false} PendingFromZero(b: seq<char>, c: seq<int>, m: nat)
    requires |b| == |c| && 1 <= m <= |c| && CountersInRange(c) && ResetBelow(c, m)
    ensures Pending(b, c, 0) == HeapOrder(m, b)[1..] + Pending(HeapFinal(m, b), c, m)
    decreases m
  {
    if m == 1 {
      assert HeapOrder(1, b)[1..] == [];
    } else {
      PendingFromZero(b, c, m - 1);
      PendingLevelUp(b, c, m);
    }
  }

  /** The step of PendingFromZero: level m's first round is generate(m - 1, b), and the rest of
      level m is what the loop owes at level m - 1 with counter m - 1 still zero. */
  lemma PendingLevelUp(b: seq<char>, c: seq<int>, m: nat)
    requires |b| == |c| && 2 <= m <= |c| && CountersInRange(c) && c[m - 1] == 0
    requires Pending(b, c, 0) == HeapOrder(m - 1, b)[1..] + Pending(HeapFinal(m - 1, b), c, m - 1)
    ensures Pending(b, c, 0) == HeapOrder(m, b)[1..] + Pending(HeapFinal(m, b), c, m)
  {
    var f := HeapFinal(m - 1, b);
    FirstRound(b, m);
    PendingUnfold(f, c, m - 1);
    HeapOrderHead(m - 1, b);
    Reassociate(Pending(b, c, 0), HeapOrder(m - 1, b), RestRounds(m, 0, f), Pending(RestFinal(m, 0, f), c, m), HeapOrder(m, b));
  }

  /** The bookkeeping of PendingFromZero on sequences: dropping the head of order + rest. */
  lemma Reassociate(whole: seq<string>, order: seq<string>, rest: seq<string>, above: seq<string>, full: seq<string>)
    requires |order| > 0 && whole == order[1..] + (rest + above) && full == order + rest
    ensures whole == full[1..] + above
  {
    assert full[1..] == order[1..] + rest;
  }

  /** generate(m, b) is its first round, generate(m - 1, b), then the rounds after it. */
  lemma FirstRound(b: seq<char>, m: nat)
    requires 2 <= m <= |b|
    ensures HeapOrder(m, b) == HeapOrder(m - 1, b) + RestRounds(m, 0, HeapFinal(m - 1, b))
    ensures HeapFinal(m, b) == RestFinal(m, 0, HeapFinal(m - 1, b))
  {
    RestMatchesRounds(m, b, 0);
    assert RoundStart(m, b, 0) == b;
    assert HeapRounds(m, b, 1) == HeapRounds(m, b, 0) + HeapOrder(m - 1, b);
  }

  /** The swap branch of the loop, read through the recursion: level i + 1 starts its next
      round with the swapped array t, which is emitted first. */
  lemma PendingTick(a: seq<char>, c: seq<int>, i: nat, t: seq<char>)
    requires |a| == |c| && i < |c| && CountersInRange(c) && ResetBelow(c, i) && c[i] < i
    requires t == Swapped(a, if i % 2 == 0 then 0 else c[i], i)
    ensures CountersInRange(c[i := c[i] + 1])
    ensures Pending(a, c, i) == [t] + Pending(t, c[i := c[i] + 1], 0)
  {
    var f := HeapFinal(i, t);
    var rr, above := RestRounds(i + 1, c[i] + 1, f), Pending(RestFinal(i + 1, c[i] + 1, f), c, i + 1);
    TickBefore(a, c, i, t);
    TickAfter(t, c, i);
    HeapOrderHead(i, t);
    Regroup(Pending(a, c, i), Pending(t, c[i := c[i] + 1], 0), HeapOrder(i, t), rr, above);
  }

  /** Before the swap: level i + 1 still owes its rounds from c[i] + 1 on, each starting after
      generate(i, t). */
  lemma TickBefore(a: seq<char>, c: seq<int>, i: nat, t: seq<char>)
    requires |a| == |c| && i < |c| && CountersInRange(c) && c[i] < i
    requires t == Swapped(a, if i % 2 == 0 then 0 else c[i], i)
    ensures Pending(a, c, i) == HeapOrder(i, t) + RestRounds(i + 1, c[i] + 1, HeapFinal(i, t))
                                + Pending(RestFinal(i + 1, c[i] + 1, HeapFinal(i, t)), c, i + 1)
  {
    LevelPartner(i, c[i]);
    RestStep(i + 1, c[i], a, t);
    PendingUnfold(a, c, i);
  }

  /** After the swap: restarting at level 0 with t runs generate(i, t) past its first emission,
      then the rest of level i + 1 and the levels above it. */
  lemma TickAfter(t: seq<char>, c: seq<int>, i: nat)
    requires |t| == |c| && 1 <= i < |c| && CountersInRange(c) && ResetBelow(c, i) && c[i] < i
    ensures CountersInRange(c[i := c[i] + 1])
    ensures Pending(t, c[i := c[i] + 1], 0)
            == HeapOrder(i, t)[1..] + (RestRounds(i + 1, c[i] + 1, HeapFinal(i, t))
                                       + Pending(RestFinal(i + 1, c[i] + 1, HeapFinal(i, t)), c, i + 1))
  {
    var d := c[i := c[i] + 1];
    var f := HeapFinal(i, t);
    CountersTick(c, i);
    PendingFromZero(t, d, i);
    PendingUnfold(f, d, i);
    PendingAbove(RestFinal(i + 1, c[i] + 1, f), d, c, i + 1);
  }

  /** The loop's partner for level i + 1 is HeapPartner's. */
  lemma LevelPartner(i: nat, j: nat)
    ensures HeapPartner(i + 1, j) == if i % 2 == 0 then 0 else j
  {
  }

  /** Advancing counter i below its bound keeps the counters in range. */
  lemma CountersTick(c: seq<int>, i: nat)
    requires i < |c| && CountersInRange(c) && c[i] < i
    ensures CountersInRange(c[i := c[i] + 1])
  {
    var d := c[i := c[i] + 1];
    forall p | 0 <= p < |d| ensures 0 <= d[p] <= p {
    }
  }

  /** The bookkeeping of PendingTick on sequences: a non-empty order split at its head. */
  lemma Regroup(whole: seq<string>, next: seq<string>, order: seq<string>, rr: seq<string>, above: seq<string>)
    requires |order| > 0 && whole == order + rr + above && next == order[1..] + (rr + above)
    ensures whole == [order[0]] + next
  {
    assert order == [order[0]] + order[1..];
  }

  /** One level of Pending: the rest of level i + 1, then the levels above it. */
  lemma PendingUnfold(a: seq<char>, c: seq<int>, i: nat)
    requires |a| == |c| && i < |c| && CountersInRange(c)
    ensures Pending(a, c, i) == RestRounds(i + 1, c[i], a) + Pending(RestFinal(i + 1, c[i], a), c, i + 1)
  {
  }

  /** Ending round j of level k with the array s: the next round starts from t, s with the
      partner of round j exchanged with k - 1. */
  lemma RestStep(k: nat, j: nat, s: seq<char>, t: seq<char>)
    requires 2 <= k <= |s| && j < k - 1
    requires t == Swapped(s, HeapPartner(k, j), k - 1)
    ensures RestRounds(k, j, s) == HeapOrder(k - 1, t) + RestRounds(k, j + 1, HeapFinal(k - 1, t))
    ensures RestFinal(k, j, s) == RestFinal(k, j + 1, HeapFinal(k - 1, t))
  {
  }

  /** The reset branch: level i + 1 has run all its rounds and emits nothing more. */
  lemma PendingCarry(a: seq<char>, c: seq<int>, i: nat)
    requires |a| == |c| && i < |c| && CountersInRange(c) && c[i] == i
    ensures CountersInRange(c[i := 0])
    ensures Pending(a, c, i) == Pending(a, c[i := 0], i + 1)
  {
    PendingAbove(a, c, c[i := 0], i + 1);
  }

  /** Before the loop, with all counters zero, what is pending is generate(n, input) after its
      first emission, the input itself. */
  lemma PendingStart(input: seq<char>, c: seq<int>)
    requires |input| == |c| >= 1 && forall j | 0 <= j < |c| :: c[j] == 0
    ensures CountersInRange(c)
    ensures [input] + Pending(input, c, 0) == HeapOrder(|input|, input)
  {
    PendingFromZero(input, c, |c|);
    HeapOrderHead(|input|, input);
    assert [input] + HeapOrder(|input|, input)[1..] == HeapOrder(|input|, input);
  }

  /** s rearranges the first k characters of a and keeps the others in place: what generate(k, a)
      may emit. */
  ghost predicate Shuffles(s: seq<char>, a: seq<char>, k: nat)
  {
    |s| == |a| && multiset(s) == multiset(a) && forall q | k <= q < |a| :: s[q] == a[q]
  }

  /** The position that a swap of i and j puts at position p. */
  function SwapIndex(i: nat, j: nat, p: nat): nat
  {
    if p == i then j else if p == j then i else p
  }

  lemma SwappedAt(a: seq<char>, i: nat, j: nat, p: nat)
    requires i < |a| && j < |a| && p < |a|
    ensures SwapIndex(i, j, p) < |a| && Swapped(a, i, j)[p] == a[SwapIndex(i, j, p)]
  {
  }

  /** Closed forms of the arrays generate(k, a) passes through, as the position of a that each
      of the first k positions holds. For even k, the array generate(k, a) leaves. */
  function EvenFinalIndex(k: nat, p: nat): (r: nat)
    requires 2 <= k && p < k
    ensures r < k
  {
    if p == k - 1 then 0
    else if p == k - 2 then k - 1
    else if p == 0 then k - 3
    else if p == 1 then k - 2
    else p - 1
  }

  /** The array generate(k, a) leaves: a with 0 and k - 1 exchanged for odd k. */
  function FinalIndex(k: nat, p: nat): (r: nat)
    requires 1 <= k && p < k
    ensures r < k
  {
    if k % 2 == 1 then SwapIndex(0, k - 1, p) else EvenFinalIndex(k, p)
  }

  /** For even k, the array round j of generate(k, a) starts from. */
  function EvenRoundIndex(k: nat, j: nat, p: nat): (r: nat)
    requires 2 <= k && j < k && p < k
    ensures r < k
  {
    if j == 0 then p
    else if p == 0 then (if j % 2 == 0 then 0 else k - 1)
    else if p == k - 1 then (if j == 1 then k - 2 else if j == k - 1 then 0 else j - 1)
    else if p == k - 2 then (if j == k - 1 then k - 3 else if j % 2 == 0 then k - 1 else 0)
    else if p == 1 then (if j == 1 then 1 else k - 2)
    else if p < j then p - 1
    else p
  }

  /** For odd k, successive rounds of generate(k, a) rotate the first k positions along one cycle:
      CycleAt is the position at step t of the cycle, CycleIndex the step of position p. */
  function CycleAt(k: nat, t: nat): (r: nat)
    requires 3 <= k && t < k
    ensures r < k
  {
    if t == 0 then k - 1 else if t <= k - 4 then k - 3 - t else if t == k - 1 then 0 else t
  }

  function CycleIndex(k: nat, p: nat): (r: nat)
    requires 3 <= k && p < k
    ensures r < k && CycleAt(k, r) == p
  {
    if p == k - 1 then 0 else if 1 <= p <= k - 4 then k - 3 - p else if p == 0 then k - 1 else p
  }

  /** t + j steps along a cycle of length k. */
  function Shift(k: nat, t: nat, j: nat): (r: nat)
    requires t < k && j < k
    ensures r < k && (r == t + j || r == t + j - k)
  {
    if t + j < k then t + j else t + j - k
  }

  /** For odd k, the array round j of generate(k, a) starts from. */
  function OddRoundIndex(k: nat, j: nat, p: nat): (r: nat)
    requires 3 <= k && j < k && p < k
    ensures r < k
  {
    CycleAt(k, Shift(k, CycleIndex(k, p), j))
  }

  /** For odd k, where position p of round j's start is read from in round j - 1's start: the
      exchange of 0 and k - 1 after generate(k - 1) has left its even closed form. */
  function OddReadIndex(k: nat, p: nat): (r: nat)
    requires 3 <= k && p < k
    ensures r < k
  {
    var q := SwapIndex(0, k - 1, p);
    if q < k - 1 then EvenFinalIndex(k - 1, q) else q
  }

  /** The round of generate(k, a) whose start holds a[p] at position k - 1. */
  function LastRound(k: nat, p: nat): (r: nat)
    requires 2 <= k && p < k
    ensures r < k
  {
    if k % 2 == 1 then CycleIndex(k, p)
    else if p == k - 1 then 0
    else if p == k - 2 then 1
    else if p == 0 then k - 1
    else p + 1
  }

  /** One even round in index terms: two exchanges, 0 with k - 2 (what generate(k - 1) does for
      odd k - 1), then j - 1 with k - 1. */
  lemma EvenRoundStep(k: nat, j: nat, p: nat)
    requires 2 <= k && k % 2 == 0 && 1 <= j < k && p < k
    ensures EvenRoundIndex(k, j, p) == EvenRoundIndex(k, j - 1, SwapIndex(0, k - 2, SwapIndex(j - 1, k - 1, p)))
  {
  }

  lemma EvenFinalStep(k: nat, p: nat)
    requires 2 <= k && k % 2 == 0 && p < k
    ensures EvenFinalIndex(k, p) == EvenRoundIndex(k, k - 1, SwapIndex(0, k - 2, p))
  {
  }

  /** One odd round in index terms: a step along the cycle. */
  lemma OddRoundStep(k: nat, j: nat, p: nat)
    requires 3 <= k && k % 2 == 1 && 1 <= j < k && p < k
    ensures OddRoundIndex(k, j, p) == OddRoundIndex(k, j - 1, OddReadIndex(k, p))
  {
    assert CycleIndex(k, OddReadIndex(k, p)) == Shift(k, CycleIndex(k, p), 1);
  }

  lemma OddFinalStep(k: nat, p: nat)
    requires 3 <= k && k % 2 == 1 && p < k
    ensures p < k - 1 ==> OddRoundIndex(k, k - 1, EvenFinalIndex(k - 1, p)) == SwapIndex(0, k - 1, p)
    ensures p == k - 1 ==> OddRoundIndex(k, k - 1, p) == 0
  {
  }

  /** The start of round LastRound(k, p) holds a[p] at position k - 1. */
  lemma LastRoundHolds(k: nat, p: nat)
    requires 2 <= k && p < k
    ensures k % 2 == 0 ==> EvenRoundIndex(k, LastRound(k, p), k - 1) == p
    ensures k % 2 == 1 ==> OddRoundIndex(k, LastRound(k, p), k - 1) == p
  {
  }

  /** f is the FinalIndex arrangement of a's first k characters, the rest in place. (That each
      arrangement is a permutation is HeapFinalPermutes.) */
  ghost predicate FinalPlaced(f: seq<char>, a: seq<char>, k: nat)
  {
    && 1 <= k <= |a| && |f| == |a|
    && (forall q | k <= q < |a| :: f[q] == a[q])
    && (forall p | 0 <= p < k :: f[p] == a[FinalIndex(k, p)])
  }

  /** t is the arrangement of a that round j of generate(k, a) starts from, k even. */
  ghost predicate EvenPlaced(t: seq<char>, a: seq<char>, k: nat, j: nat)
  {
    && 2 <= k <= |a| && j < k && |t| == |a|
    && (forall q | k <= q < |a| :: t[q] == a[q])
    && (forall p | 0 <= p < k :: t[p] == a[EvenRoundIndex(k, j, p)])
  }

  /** t is the arrangement of a that round j of generate(k, a) starts from, k odd. */
  ghost predicate OddPlaced(t: seq<char>, a: seq<char>, k: nat, j: nat)
  {
    && 3 <= k <= |a| && j < k && |t| == |a|
    && (forall q | k <= q < |a| :: t[q] == a[q])
    && (forall p | 0 <= p < k :: t[p] == a[OddRoundIndex(k, j, p)])
  }

  /** generate(k, a) leaves the FinalIndex arrangement of a. */
  lemma {:induction false} HeapFinalShape(k: nat, a: seq<char>)
    requires 1 <= k <= |a|
    ensures FinalPlaced(HeapFinal(k, a), a, k)
    decreases k, 1
  {
    if k > 1 && k % 2 == 0 {
      EvenFinalShape(k, a);
    } else if k > 1 {
      OddFinalShape(k, a);
    }
  }

  /** HeapFinalShape for even k: the last round ends with generate(k - 1) on its start. */
  lemma {:induction false} EvenFinalShape(k: nat, a: seq<char>)
    requires 2 <= k <= |a| && k % 2 == 0
    ensures FinalPlaced(HeapFinal(k, a), a, k)
    decreases k, 0, k
  {
    var t := RoundStart(k, a, k - 1);
    assert HeapFinal(k, a) == HeapFinal(k - 1, t);
    EvenRoundShape(k, a, k - 1);
    OddFinal(k - 1, t);
    EvenFinalFrom(k, a, t);
  }

  /** HeapFinalShape for odd k. */
  lemma {:induction false} OddFinalShape(k: nat, a: seq<char>)
    requires 3 <= k <= |a| && k % 2 == 1
    ensures FinalPlaced(HeapFinal(k, a), a, k)
    decreases k, 0, k
  {
    var t := RoundStart(k, a, k - 1);
    assert HeapFinal(k, a) == HeapFinal(k - 1, t);
    OddRoundShape(k, a, k - 1);
    HeapFinalShape(k - 1, t);
    OddFinalFrom(k, a, t, HeapFinal(k - 1, t));
  }

  /** For odd k, generate(k, b) leaves b with 0 and k - 1 exchanged. */
  lemma {:induction false} OddFinal(k: nat, b: seq<char>)
    requires 1 <= k <= |b| && k % 2 == 1
    ensures HeapFinal(k, b) == Swapped(b, 0, k - 1)
    decreases k, 2
  {
    HeapFinalShape(k, b);
    var f, s := HeapFinal(k, b), Swapped(b, 0, k - 1);
    forall p | 0 <= p < |b| ensures f[p] == s[p] {
      SwappedAt(b, 0, k - 1, p);
    }
  }

  /** For even k, round j of generate(k, a) starts from the EvenRoundIndex arrangement of a. */
  lemma {:induction false} EvenRoundShape(k: nat, a: seq<char>, j: nat)
    requires 2 <= k <= |a| && k % 2 == 0 && j < k
    ensures EvenPlaced(RoundStart(k, a, j), a, k, j)
    decreases k, 0, j
  {
    if j > 0 {
      EvenRoundShape(k, a, j - 1);
      var prev := RoundStart(k, a, j - 1);
      OddFinal(k - 1, prev);
      assert RoundStart(k, a, j) == Swapped(Swapped(prev, 0, k - 2), j - 1, k - 1);
      EvenRoundFrom(k, a, j, prev);
    }
  }

  /** For odd k, round j of generate(k, a) starts from the OddRoundIndex arrangement of a. */
  lemma {:induction false} OddRoundShape(k: nat, a: seq<char>, j: nat)
    requires 3 <= k <= |a| && k % 2 == 1 && j < k
    ensures OddPlaced(RoundStart(k, a, j), a, k, j)
    decreases k, 0, j, 1
  {
    if j == 0 {
      forall p | 0 <= p < k ensures a[p] == a[OddRoundIndex(k, 0, p)] {
      }
    } else {
      OddRoundLater(k, a, j);
    }
  }

  lemma {:induction false} OddRoundLater(k: nat, a: seq<char>, j: nat)
    requires 3 <= k <= |a| && k % 2 == 1 && 1 <= j < k
    ensures OddPlaced(RoundStart(k, a, j), a, k, j)
    decreases k, 0, j, 0
  {
    OddRoundShape(k, a, j - 1);
    var prev := RoundStart(k, a, j - 1);
    HeapFinalShape(k - 1, prev);
    var e := HeapFinal(k - 1, prev);
    assert RoundStart(k, a, j) == Swapped(e, 0, k - 1);
    OddRoundFrom(k, a, j, prev, e);
  }

  /** The even step on values: the start of round j from that of round j - 1. */
  lemma EvenRoundFrom(k: nat, a: seq<char>, j: nat, prev: seq<char>)
    requires 2 <= k && k % 2 == 0 && 1 <= j < k && EvenPlaced(prev, a, k, j - 1)
    ensures EvenPlaced(Swapped(Swapped(prev, 0, k - 2), j - 1, k - 1), a, k, j)
  {
    TwoSwapsKeepSuffix(prev, a, k, j - 1, k - 1, 0, k - 2);
    EvenRoundPoints(k, a, j, prev);
  }

  /** Two exchanges inside the first k positions keep the rest in place. */
  lemma TwoSwapsKeepSuffix(b: seq<char>, a: seq<char>, k: nat, i: nat, j: nat, i': nat, j': nat)
    requires |b| == |a| && i < k && j < k && i' < k && j' < k && k <= |a|
    requires forall q | k <= q < |a| :: b[q] == a[q]
    ensures forall q | k <= q < |a| :: Swapped(Swapped(b, i', j'), i, j)[q] == a[q]
  {
    forall q | k <= q < |a| ensures Swapped(Swapped(b, i', j'), i, j)[q] == a[q] {
      SwappedAt(Swapped(b, i', j'), i, j, q);
      SwappedAt(b, i', j', q);
    }
  }

  lemma EvenRoundPoints(k: nat, a: seq<char>, j: nat, prev: seq<char>)
    requires 2 <= k <= |a| && k % 2 == 0 && 1 <= j < k && |prev| == |a|
    requires forall p | 0 <= p < k :: prev[p] == a[EvenRoundIndex(k, j - 1, p)]
    ensures forall p | 0 <= p < k :: Swapped(Swapped(prev, 0, k - 2), j - 1, k - 1)[p] == a[EvenRoundIndex(k, j, p)]
  {
    forall p | 0 <= p < k ensures Swapped(Swapped(prev, 0, k - 2), j - 1, k - 1)[p] == a[EvenRoundIndex(k, j, p)] {
      var r := SwapIndex(0, k - 2, SwapIndex(j - 1, k - 1, p));
      EvenRoundPoint(k, j, p, a, prev, prev[r]);
    }
  }

  /** One position of the even step: x is what the start of round j - 1 holds where round j
      reads position p from. */
  lemma EvenRoundPoint(k: nat, j: nat, p: nat, a: seq<char>, prev: seq<char>, x: char)
    requires 2 <= k <= |a| && k % 2 == 0 && 1 <= j < k && p < k && |prev| == |a|
    requires x == prev[SwapIndex(0, k - 2, SwapIndex(j - 1, k - 1, p))]
    requires x == a[EvenRoundIndex(k, j - 1, SwapIndex(0, k - 2, SwapIndex(j - 1, k - 1, p)))]
    ensures Swapped(Swapped(prev, 0, k - 2), j - 1, k - 1)[p] == a[EvenRoundIndex(k, j, p)]
  {
    var e := Swapped(prev, 0, k - 2);
    SwappedAt(e, j - 1, k - 1, p);
    SwappedAt(prev, 0, k - 2, SwapIndex(j - 1, k - 1, p));
    EvenRoundStep(k, j, p);
  }

  /** The odd step on values: e is what generate(k - 1) leaves of the start of round j - 1. */
  lemma OddRoundFrom(k: nat, a: seq<char>, j: nat, prev: seq<char>, e: seq<char>)
    requires 3 <= k && k % 2 == 1 && 1 <= j < k && OddPlaced(prev, a, k, j - 1) && FinalPlaced(e, prev, k - 1)
    ensures OddPlaced(Swapped(e, 0, k - 1), a, k, j)
  {
    var t := Swapped(e, 0, k - 1);
    forall p | 0 <= p < k ensures t[p] == a[OddRoundIndex(k, j, p)] {
      SwappedAt(e, 0, k - 1, p);
      OddRead(k, prev, e, p);
      OddRoundStep(k, j, p);
    }
  }

  /** What position p of the next round's start reads from the start of the previous round. */
  lemma OddRead(k: nat, prev: seq<char>, e: seq<char>, p: nat)
    requires 3 <= k && k % 2 == 1 && p < k && FinalPlaced(e, prev, k - 1) && k <= |prev|
    ensures e[SwapIndex(0, k - 1, p)] == prev[OddReadIndex(k, p)]
  {
  }

  /** The even final array on values: one more exchange of 0 and k - 2 after the last round. */
  lemma EvenFinalFrom(k: nat, a: seq<char>, t: seq<char>)
    requires 2 <= k && k % 2 == 0 && EvenPlaced(t, a, k, k - 1)
    ensures FinalPlaced(Swapped(t, 0, k - 2), a, k)
  {
    var f := Swapped(t, 0, k - 2);
    forall p | 0 <= p < k ensures f[p] == a[FinalIndex(k, p)] {
      SwappedAt(t, 0, k - 2, p);
      EvenFinalStep(k, p);
    }
  }

  /** The odd final array on values: f is what generate(k - 1) leaves of the last round's start. */
  lemma OddFinalFrom(k: nat, a: seq<char>, t: seq<char>, f: seq<char>)
    requires 3 <= k && k % 2 == 1 && OddPlaced(t, a, k, k - 1) && FinalPlaced(f, t, k - 1)
    ensures FinalPlaced(f, a, k)
  {
    forall p | 0 <= p < k ensures f[p] == a[FinalIndex(k, p)] {
      OddFinalStep(k, p);
    }
  }

  /** generate(k, a) only exchanges characters: the array it leaves, and the array every round
      starts from, is a permutation of a. */
  lemma {:induction false} HeapFinalPermutes(k: nat, a: seq<char>)
    requires 1 <= k <= |a|
    ensures multiset(HeapFinal(k, a)) == multiset(a)
    decreases k, 1
  {
    if k > 1 {
      var t := RoundStart(k, a, k - 1);
      RoundStartPermutes(k, a, k - 1);
      HeapFinalPermutes(k - 1, t);
      SamePermutation(HeapFinal(k, a), HeapFinal(k - 1, t), t, a);
    }
  }

  lemma {:induction false} RoundStartPermutes(k: nat, a: seq<char>, j: nat)
    requires 2 <= k <= |a| && j < k
    ensures multiset(RoundStart(k, a, j)) == multiset(a)
    decreases k, 0, j, 1
  {
    if j > 0 {
      LaterRoundPermutes(k, a, j);
    }
  }

  lemma {:induction false} LaterRoundPermutes(k: nat, a: seq<char>, j: nat)
    requires 2 <= k <= |a| && 1 <= j < k
    ensures multiset(RoundStart(k, a, j)) == multiset(a)
    decreases k, 0, j, 0
  {
    var prev := RoundStart(k, a, j - 1);
    RoundStartPermutes(k, a, j - 1);
    RoundStepPermutes(k, prev, a, HeapPartner(k, j - 1));
  }

  /** One round of generate(k, _) from a permutation of a, closed by its swap, leaves a
      permutation of a. */
  lemma {:induction false} RoundStepPermutes(k: nat, b: seq<char>, a: seq<char>, i: nat)
    requires 2 <= k <= |b| && i < k && multiset(b) == multiset(a)
    ensures multiset(Swapped(HeapFinal(k - 1, b), i, k - 1)) == multiset(a)
    decreases k, 0, 0, 0
  {
    HeapFinalPermutes(k - 1, b);
    SwapPermutes(HeapFinal(k - 1, b), b, a, i, k - 1);
  }

  /** A swap of a permutation of a permutation of a is a permutation of a. */
  lemma SwapPermutes(e: seq<char>, b: seq<char>, a: seq<char>, i: nat, j: nat)
    requires i < |e| && j < |e| && multiset(e) == multiset(b) && multiset(b) == multiset(a)
    ensures multiset(Swapped(e, i, j)) == multiset(a)
  {
    SwappedIsPermutation(e, i, j);
  }

  /** Chaining: x equals y, a permutation of z, itself a permutation of w. */
  lemma SamePermutation(x: seq<char>, y: seq<char>, z: seq<char>, w: seq<char>)
    requires x == y && multiset(y) == multiset(z) && multiset(z) == multiset(w)
    ensures multiset(x) == multiset(w)
  {
  }

  /** Every round start of generate(k, a) shuffles a, and round LastRound(k, p) puts a[p] at
      position k - 1. */
  lemma RoundLast(k: nat, a: seq<char>, p: nat)
    requires 2 <= k <= |a| && p < k
    ensures Shuffles(RoundStart(k, a, LastRound(k, p)), a, k)
    ensures RoundStart(k, a, LastRound(k, p))[k - 1] == a[p]
  {
    LastRoundHolds(k, p);
    RoundStartPermutes(k, a, LastRound(k, p));
    if k % 2 == 0 {
      EvenRoundShape(k, a, LastRound(k, p));
    } else {
      OddRoundShape(k, a, LastRound(k, p));
    }
  }

  /** With one position to rearrange there is one arrangement. */
  lemma OneShuffle(s: seq<char>, a: seq<char>)
    requires 1 <= |a| && Shuffles(s, a, 1)
    ensures s == a
  {
    assert s[1..] == a[1..];
    assert s == [s[0]] + s[1..] && a == [a[0]] + a[1..];
    assert multiset(s) == multiset{s[0]} + multiset(s[1..]);
    assert multiset(a) == multiset{a[0]} + multiset(a[1..]);
    assert s[0] in multiset(a);
  }

  /** The character s puts at position k - 1 comes from one of a's first k positions. */
  lemma LastComesFrom(s: seq<char>, a: seq<char>, k: nat) returns (p: nat)
    requires 1 <= k <= |a| && Shuffles(s, a, k)
    ensures p < k && a[p] == s[k - 1]
  {
    assert multiset(s[..k]) == multiset(a[..k]) by {
      assert s[k..] == a[k..];
      assert s == s[..k] + s[k..] && a == a[..k] + a[k..];
      assert multiset(s) == multiset(s[..k]) + multiset(s[k..]);
      assert multiset(a) == multiset(a[..k]) + multiset(a[k..]);
      var rest := multiset(s[k..]);
      assert multiset(s[..k]) == (multiset(s[..k]) + rest) - rest;
      assert multiset(a[..k]) == (multiset(a[..k]) + rest) - rest;
    }
    assert s[k - 1] in multiset(a[..k]) by {
      assert s[..k][k - 1] == s[k - 1];
    }
    p :| 0 <= p < k && a[..k][p] == s[k - 1];
  }

  /** What round j emits stays in the rounds up to any later r. */
  lemma {:induction false} RoundInRounds(k: nat, a: seq<char>, j: nat, r: nat, s: seq<char>)
    requires 2 <= k <= |a| && j < r <= k && s in HeapOrder(k - 1, RoundStart(k, a, j))
    ensures s in HeapRounds(k, a, r)
    decreases r
  {
    if r > j + 1 {
      RoundInRounds(k, a, j, r - 1, s);
    }
  }

  /** generate(k, a) emits every rearrangement of a's first k characters. */
  lemma {:induction false} HeapOrderComplete(k: nat, a: seq<char>, s: seq<char>)
    requires 1 <= k <= |a| && Shuffles(s, a, k)
    ensures s in HeapOrder(k, a)
    decreases k
  {
    if k == 1 {
      OneShuffle(s, a);
    } else {
      var p := LastComesFrom(s, a, k);
      RoundLast(k, a, p);
      var j := LastRound(k, p);
      var t := RoundStart(k, a, j);
      assert Shuffles(s, t, k - 1);
      HeapOrderComplete(k - 1, t, s);
      RoundInRounds(k, a, j, k, s);
    }
  }

  /** What holds between two rounds of Heap's loop: the array is still a permutation of the
      input, every counter is in range and those below i are reset, one arrangement has been
      emitted per unit of Progress plus the initial one, and each is a permutation; and what has
      been emitted, followed by what is pending, is what generate(n, input) emits. */
  ghost predicate HeapInvariant(input: string, a: seq<char>, c: seq<int>, i: int, results: seq<string>)
  {
    && |c| == |input| && 0 <= i <= |input|
    && multiset(a) == multiset(input)
    && CountersInRange(c)
    && ResetBelow(c, i)
    && |results| == Progress(c, i) + 1
    && AllPermutationsOf(results, input)
    && HeapFollows(input, a, c, i, results)
  }

  /** The loop is on course with the recursive algorithm: results, then Pending, is HeapOrder. */
  ghost predicate HeapFollows(input: string, a: seq<char>, c: seq<int>, i: int, results: seq<string>)
  {
    && 1 <= |input| && |a| == |c| == |input| && 0 <= i <= |c| && CountersInRange(c)
    && results + Pending(a, c, i) == HeapOrder(|input|, input)
  }

  /** Counter j never exceeds j. */
  ghost predicate CountersInRange(c: seq<int>)
  {
    forall j | 0 <= j < |c| :: 0 <= c[j] <= j
  }

  /** The counters below i are zero. */
  ghost predicate ResetBelow(c: seq<int>, i: int)
  {
    forall j | 0 <= j < |c| && j < i :: c[j] == 0
  }

  /** Every string of results is a permutation of input. */
  ghost predicate AllPermutationsOf(results: seq<string>, input: string)
  {
    forall s | s in results :: |s| == |input| && multiset(s) == multiset(input)
  }

  /** The loop of generatePermutationsIterative: the initial arrangement, then one more after
      each swap; n! arrangements in all, each a permutation of the input. */
  method HeapEmissions(input: string) returns (results: seq<string>)
    requires input != []
    ensures |results| == Factorial(|input|)
    ensures forall s | s in results :: |s| == |input| && multiset(s) == multiset(input)
    ensures results == HeapOrder(|input|, input)
  {
    var n := |input|;
    var arr := new char[n](j requires 0 <= j < n => input[j]);
    var counters := new int[n](j => 0);
    assert arr[..] == input;
    ProgressZero(counters[..]);
    PendingStart(input, counters[..]);
    results := [arr[..]];
    var i := 0;
    while i < n
      invariant HeapInvariant(input, arr[..], counters[..], i, results)
      decreases Factorial(n) - Progress(counters[..], i), n - i
    {
      ProgressBound(counters[..], i);
      i, results := HeapRound(input, arr, counters, i, results);
      ProgressBound(counters[..], i);
    }
    ProgressFull(counters[..], n);
    assert Pending(arr[..], counters[..], n) == [];
  }

  /** One round of Heap's loop: swap and emit when counters[i] < i (restarting at 0), otherwise
      reset counters[i] and move on. The first adds one to Progress, the second keeps it. */
  method HeapRound(input: string, arr: array<char>, counters: array<int>, i: nat, results: seq<string>)
    returns (i': nat, results': seq<string>)
    requires arr != counters as object && arr.Length == |input|
    requires HeapInvariant(input, arr[..], counters[..], i, results) && i < |input|
    modifies arr, counters
    ensures HeapInvariant(input, arr[..], counters[..], i', results')
    ensures Progress(counters[..], i') == old(Progress(counters[..], i)) + 1
            || (Progress(counters[..], i') == old(Progress(counters[..], i)) && i' == i + 1)
  {
    if counters[i] < i {
      results' := HeapSwap(input, arr, counters, i, results);
      i' := 0;
    } else {
      HeapReset(input, arr, counters, i, results);
      i', results' := i + 1, results;
    }
  }

  /** The if branch: swap position i with 0 (i even) or with counters[i] (i odd), emit the
      arrangement, bump counters[i]. */
  method HeapSwap(input: string, arr: array<char>, counters: array<int>, i: nat, results: seq<string>)
    returns (results': seq<string>)
    requires arr.Length == |input| && i < |input|
    requires HeapInvariant(input, arr[..], counters[..], i, results) && counters[i] < i
    modifies arr, counters
    ensures HeapInvariant(input, arr[..], counters[..], 0, results')
    ensures Progress(counters[..], 0) == old(Progress(counters[..], i)) + 1
  {
    ghost var a, before := arr[..], counters[..];
    var j := if i % 2 == 0 then 0 else counters[i];
    HeapTick(input, a, before, i, results, j);
    Swap(arr, j, i);
    results' := results + [arr[..]];
    counters[i] := counters[i] + 1;
    assert arr[..] == Swapped(a, j, i) && results' == results + [Swapped(a, j, i)];
    assert counters[..] == before[i := before[i] + 1];
  }

  /** The else branch: counters[i] has reached i; reset it. */
  method HeapReset(input: string, arr: array<char>, counters: array<int>, i: nat, results: seq<string>)
    requires arr.Length == |input| && i < |input|
    requires HeapInvariant(input, arr[..], counters[..], i, results) && counters[i] >= i
    modifies counters
    ensures HeapInvariant(input, arr[..], counters[..], i + 1, results)
    ensures Progress(counters[..], i + 1) == old(Progress(counters[..], i))
  {
    ghost var before := counters[..];
    HeapCarry(input, arr[..], before, i, results);
    counters[i] := 0;
    assert counters[..] == before[i := 0];
  }

  /** The if branch of Heap's loop keeps the invariant and adds one to Progress. */
  lemma HeapTick(input: string, a: seq<char>, c: seq<int>, i: nat, results: seq<string>, j: nat)
    requires HeapInvariant(input, a, c, i, results) && |a| == |input| && i < |input| && c[i] < i
    requires j == if i % 2 == 0 then 0 else c[i]
    ensures j < |a|
    ensures HeapInvariant(input, Swapped(a, j, i), c[i := c[i] + 1], 0, results + [Swapped(a, j, i)])
    ensures Progress(c[i := c[i] + 1], 0) == Progress(c, i) + 1
  {
    SwappedIsPermutation(a, j, i);
    ProgressTick(c, i);
    FollowsTick(input, a, c, i, results, Swapped(a, j, i));
  }

  /** The swap branch keeps the loop on course with the recursion. */
  lemma FollowsTick(input: string, a: seq<char>, c: seq<int>, i: nat, results: seq<string>, t: seq<char>)
    requires HeapFollows(input, a, c, i, results) && i < |c| && ResetBelow(c, i) && c[i] < i
    requires t == Swapped(a, if i % 2 == 0 then 0 else c[i], i)
    ensures HeapFollows(input, t, c[i := c[i] + 1], 0, results + [t])
  {
    PendingTick(a, c, i, t);
    var d := c[i := c[i] + 1];
    Emitted(results, t, Pending(a, c, i), Pending(t, d, 0), HeapOrder(|input|, input));
  }

  /** Emitting the head of what is pending leaves the rest pending. */
  lemma Emitted(results: seq<string>, t: string, pending: seq<string>, rest: seq<string>, whole: seq<string>)
    requires results + pending == whole && pending == [t] + rest
    ensures (results + [t]) + rest == whole
  {
    assert results + ([t] + rest) == (results + [t]) + rest;
  }

  /** The else branch of Heap's loop keeps the invariant and Progress. */
  lemma HeapCarry(input: string, a: seq<char>, c: seq<int>, i: nat, results: seq<string>)
    requires HeapInvariant(input, a, c, i, results) && i < |input| && c[i] >= i
    ensures HeapInvariant(input, a, c[i := 0], i + 1, results)
    ensures Progress(c[i := 0], i + 1) == Progress(c, i)
  {
    ProgressCarry(c, i);
    PendingCarry(a, c, i);
  }
}
