/** Mutually recursive parity test of src/EvenOddChecker.java, on Java 32-bit ints. */
module EvenOddChecker {
  import opened Int32

  /** |n| as a mathematical integer (no overflow): the measure that the mutual recursion
      decreases. */
  function Magnitude(n: int32): nat
  {
    if n < 0 then -(n as int) else n
  }

  /** isEven: negate a negative argument (in 32-bit arithmetic, so MIN stays negative and is
      answered directly), 0 is even, otherwise ask isOdd(n - 1). */
  function IsEven(n: int32): bool
    decreases Magnitude(n)
  {
    var m := if n < 0 then Neg(n) else n;
    if m < 0 then true
    else if m == 0 then true
    else IsOdd(m - 1)
  }

  /** isOdd: the mirror image of isEven; MIN is not odd, 0 is not odd. */
  function IsOdd(n: int32): bool
    decreases Magnitude(n)
  {
    var m := if n < 0 then Neg(n) else n;
    if m < 0 then false
    else if m == 0 then false
    else IsEven(m - 1)
  }

  /** isEvenIterative: Java's truncating `n % 2 == 0`. */
  function IsEvenIterative(n: int32): bool
  {
    Rem(n, 2) == 0
  }

  /** isOddIterative: Java's truncating `n % 2 != 0`. */
  function IsOddIterative(n: int32): bool
  {
    Rem(n, 2) != 0
  }

  /** The mutual recursion decides divisibility by 2 for every 32-bit int, MIN included. */
  lemma {:induction false} ParityIsDivisibility(n: int32)
    ensures IsEven(n) <==> n % 2 == 0
    ensures IsOdd(n) <==> n % 2 != 0
    decreases Magnitude(n)
  {
    if n == MIN {
      assert IsEven(n) && !IsOdd(n);
    } else if n != 0 {
      var m: int32 := if n < 0 then -n else n;
      StepDown(n, m);
      ParityIsDivisibility(m - 1);
      PredecessorParity(n, m);
    }
  }

  /** One level of the recursion for n other than 0 and MIN: both functions ask the other
      about |n| - 1. */
  lemma StepDown(n: int32, m: int32)
    requires n != MIN && n != 0 && m == (if n < 0 then -n else n)
    ensures m >= 1 && Magnitude(m - 1) < Magnitude(n)
    ensures IsEven(n) == IsOdd(m - 1) && IsOdd(n) == IsEven(m - 1)
  {
    assert n < 0 ==> Neg(n) == m;
  }

  /** m is n or -n and positive: m - 1 is even exactly when n is odd. */
  lemma PredecessorParity(n: int, m: int)
    requires (m == n || m == -n) && m >= 1
    ensures (m - 1) % 2 == 0 <==> n % 2 != 0
  {
  }

  /** Exactly one of isEven and isOdd holds. */
  lemma ExactlyOneHolds(n: int32)
    ensures IsEven(n) != IsOdd(n)
  {
    ParityIsDivisibility(n);
  }

  /** Negation does not change parity (MIN has no 32-bit negation). */
  lemma EvenIsSymmetric(n: int32)
    requires n != MIN
    ensures IsEven(-n) == IsEven(n)
    ensures IsOdd(-n) == IsOdd(n)
  {
    ParityIsDivisibility(n);
    ParityIsDivisibility(-n);
  }

  /** The recursive versions agree with the modulo versions. */
  lemma RecursiveAgreesWithIterative(n: int32)
    ensures IsEven(n) == IsEvenIterative(n)
    ensures IsOdd(n) == IsOddIterative(n)
  {
    ParityIsDivisibility(n);
  }
}
