/** Base-2..36 conversion of a Java int to a string, src/IntegerToString.java: the recursive
    stringValue (a function) and the loop-based stringValueIterative (a method proved equal to
    it). Eval and ParseSigned read a string back; they are the partner of the conversion. */
module IntegerToString {
  import opened Int32
  import opened Outcomes

  /** The message of the IllegalArgumentException for a base outside [2, 36]; the base is
      appended in decimal, as Java's string concatenation writes an int. */
  function BaseError(base: int32): string
  {
    "Base must be between 2 and 36, got: " + (if base < 0 then "-" + Helper(-(base as int), 10) else Helper(base, 10))
  }

  predicate ValidBase(base: int)
  {
    2 <= base <= 36
  }

  /** The value a digit character stands for: '0'..'9' are 0..9, 'A'..'Z' are 10..35, any other
      character gives -1. */
  function DigitValue(c: char): int
  {
    if '0' <= c <= '9' then c as int - '0' as int
    else if 'A' <= c <= 'Z' then c as int - 'A' as int + 10
    else -1
  }

  /** getDigitChar: 0..9 become '0'..'9', 10..35 become 'A'..'Z'. */
  function DigitChar(digit: int): (c: char)
    requires 0 <= digit < 36
    ensures DigitValue(c) == digit
    ensures digit < 10 ==> '0' <= c <= '9'
    ensures digit >= 10 ==> 'A' <= c <= 'Z'
  {
    if digit < 10 then ('0' as int + digit) as char
    else ('A' as int + (digit - 10)) as char
  }

  /** stringValueHelper: the most significant digits first, by recursion on n / base. */
  function Helper(n: nat, base: int): string
    requires ValidBase(base)
    decreases n
  {
    if n < base then [DigitChar(n)]
    else
      QuotientBounds(n, base);
      Helper(n / base, base) + [DigitChar(n % base)]
  }

  /** stringValue. MIN has no 32-bit negation, so its last digit is split off first with
      Java's truncating / and %. */
  function StringValue(n: int32, base: int32): Result<string>
  {
    if !ValidBase(base) then Err(BaseError(base))
    else if n < 0 then
      if n == MIN then Ok("-" + Helper(-Div(n, base), base) + [DigitChar(-Rem(n, base))])
      else Ok("-" + Helper(-n, base))
    else Ok(Helper(n, base))
  }

  /** Every character of s is a digit of the given base. */
  predicate AllDigits(s: string, base: int)
  {
    forall i | 0 <= i < |s| :: 0 <= DigitValue(s[i]) < base
  }

  /** The number a string of digits denotes in the given base, most significant digit first. */
  function Eval(s: string, base: int): int
  {
    if s == [] then 0 else Eval(s[..|s| - 1], base) * base + DigitValue(s[|s| - 1])
  }

  /** The integer a string produced by stringValue stands for: an optional '-' then digits. */
  function ParseSigned(s: string, base: int): int
  {
    if |s| > 0 && s[0] == '-' then -Eval(s[1..], base) else Eval(s, base)
  }

  /** The facts about n / base and n % base that one step of the conversion needs. */
  lemma DivStep(n: nat, base: int)
    requires 2 <= base <= n
    ensures 1 <= n / base < n
    ensures n == (n / base) * base + n % base
    ensures 0 <= n % base < base
  {
    var q, r := n / base, n % base;
    assert n == base * q + r && 0 <= r < base;
    ScaleByAtLeastTwo(base, q);
  }

  /** Multiplying by a factor of at least 2: a positive q at least doubles, any other q gives
      no positive product. */
  lemma ScaleByAtLeastTwo(base: int, q: int)
    requires base >= 2
    ensures q >= 1 ==> base * q >= 2 * q
    ensures q <= 0 ==> base * q <= 0
  {
    if q >= 1 {
      assert base * q == 2 * q + (base - 2) * q;
    }
  }

  lemma EvalAppend(s: string, c: char, base: int)
    ensures Eval(s + [c], base) == Eval(s, base) * base + DigitValue(c)
  {
    assert (s + [c])[..|s|] == s;
  }

  /** The quotient and remainder of one helper step, without the product that links them. */
  lemma QuotientBounds(n: nat, base: int)
    requires 2 <= base <= n
    ensures 1 <= n / base < n
    ensures 0 <= n % base < base
  {
    DivStep(n, base);
  }

  /** For n >= 0 the helper writes only digits below base, reads back as n, and has no leading
      zero unless n is 0, in which case it is "0". */
  lemma HelperIsPositional(n: nat, base: int)
    requires ValidBase(base)
    ensures AllDigits(Helper(n, base), base)
    ensures Eval(Helper(n, base), base) == n
    ensures n == 0 ==> Helper(n, base) == "0"
    ensures n > 0 ==> Helper(n, base)[0] != '0'
  {
    HelperShape(n, base);
    HelperValue(n, base);
  }

  /** The helper's digits are below base, and the first one is 0 only when n is. */
  lemma {:induction false} HelperShape(n: nat, base: int)
    requires ValidBase(base)
    ensures AllDigits(Helper(n, base), base)
    ensures n == 0 ==> Helper(n, base) == "0"
    ensures n > 0 ==> |Helper(n, base)| > 0 && Helper(n, base)[0] != '0'
    decreases n
  {
    if n >= base {
      QuotientBounds(n, base);
      var h := Helper(n / base, base);
      assert Helper(n, base) == h + [DigitChar(n % base)];
      HelperShape(n / base, base);
    }
  }

  /** The helper's digits read back as n. */
  lemma {:induction false} HelperValue(n: nat, base: int)
    requires ValidBase(base)
    ensures Eval(Helper(n, base), base) == n
    decreases n
  {
    if n < base {
      assert Helper(n, base) == [] + [DigitChar(n)];
      EvalAppend([], DigitChar(n), base);
      assert Eval([DigitChar(n)], base) == n;
    } else {
      DivStep(n, base);
      var q, d := n / base, n % base;
      var h := Helper(q, base);
      assert Helper(n, base) == h + [DigitChar(d)];
      HelperValue(q, base);
      EvalAppend(h, DigitChar(d), base);
      assert Eval(h, base) == q;
      assert Eval(h + [DigitChar(d)], base) == q * base + d;
      assert q * base + d == n;
    }
  }

  /** One unfolding of the helper for an argument of at least two digits. */
  lemma HelperStep(n: nat, base: int)
    requires ValidBase(base) && n >= base
    ensures Helper(n, base) == Helper(n / base, base) + [DigitChar(n % base)]
  {
  }

  /** MIN, whose magnitude a does not fit an int: splitting off the last digit with Java's
      truncating / and % and writing the rest with the helper gives the digits of a. */
  lemma MinIsSignAndMagnitude(base: int32, a: nat)
    requires ValidBase(base) && a == -(MIN as int)
    ensures StringValue(MIN, base) == Ok("-" + Helper(a, base))
  {
    var q := -Div(MIN, base);
    var d := -Rem(MIN, base);
    assert q == a / base && d == a % base;
    var s := Helper(q, base) + [DigitChar(d)];
    assert StringValue(MIN, base).value == "-" + s;
    HelperStep(a, base);
    assert Helper(a, base) == s;
  }

  /** One iteration of the conversion loop: prepending the last digit of a to result and
      dividing a by base keeps Helper(a) + result unchanged. */
  lemma LoopStep(a: nat, base: int, result: string)
    requires ValidBase(base) && a > 0
    ensures 0 <= a % base < base && 0 <= a / base < a
    ensures a / base > 0 ==>
              Helper(a, base) + result == Helper(a / base, base) + ([DigitChar(a % base)] + result)
    ensures a / base == 0 ==> Helper(a, base) + result == [DigitChar(a % base)] + result
  {
    if a >= base {
      DivStep(a, base);
      HelperStep(a, base);
      var high, low := Helper(a / base, base), [DigitChar(a % base)];
      assert high + low + result == high + (low + result);
    } else {
      SingleDigit(a, base);
    }
  }

  /** A number below the base is its own last digit. */
  lemma SingleDigit(a: nat, base: int)
    requires 2 <= base && a < base
    ensures a / base == 0 && a % base == a
  {
  }

  /** A negative n, MIN included, is "-" followed by the digits of |n|. */
  lemma NegativeIsSignAndMagnitude(n: int32, base: int32)
    requires ValidBase(base) && n < 0
    ensures StringValue(n, base) == Ok("-" + Helper(-(n as int), base))
  {
    if n == MIN {
      MinIsSignAndMagnitude(base, -(n as int));
    }
  }

  /** Round trip: for every valid base, stringValue succeeds, writes an optional '-' followed
      by digits of that base, and reading the string back gives n. */
  lemma StringValueRoundTrip(n: int32, base: int32)
    requires ValidBase(base)
    ensures StringValue(n, base).Ok?
    ensures ParseSigned(StringValue(n, base).value, base) == n
    ensures n < 0 ==> StringValue(n, base).value[0] == '-'
                      && AllDigits(StringValue(n, base).value[1..], base)
    ensures n >= 0 ==> AllDigits(StringValue(n, base).value, base)
  {
    if n < 0 {
      NegativeIsSignAndMagnitude(n, base);
      HelperIsPositional(-(n as int), base);
      var s := StringValue(n, base).value;
      assert s[1..] == Helper(-(n as int), base);
    } else {
      HelperIsPositional(n, base);
    }
  }

  /** A base outside [2, 36] is rejected, whatever n is. */
  lemma InvalidBaseRejected(n: int32, base: int32)
    requires !ValidBase(base)
    ensures StringValue(n, base) == Err(BaseError(base))
  {
  }

  /** Any valid base written in itself is "10". */
  lemma BaseInItselfIsTen(base: int32)
    requires ValidBase(base)
    ensures StringValue(base, base) == Ok("10")
  {
    HelperStep(base as nat, base);
    assert base / base == 1 && base % base == 0;
    assert Helper(1, base) == [DigitChar(1)];
    assert DigitChar(1) == '1' && DigitChar(0) == '0';
    assert Helper(base, base) == "10";
  }

  /** stringValueIterative: prepend the last digit and divide until nothing is left; MIN is
      handled on a 64-bit copy of |n|. Proved equal to the recursive stringValue. */
  method StringValueIterative(n: int32, base: int32) returns (r: Result<string>)
    ensures r == StringValue(n, base)
  {
    if base < 2 || base > 36 {
      return Err(BaseError(base));
    }
    if n == 0 {
      return Ok("0");
    }
    var isNegative := n < 0;
    if isNegative && n == MIN {
      var result: string := "";
      var absValue: int := -(n as int);
      ghost var magnitude: nat := absValue;
      while absValue > 0
        invariant absValue >= 0
        invariant absValue > 0 ==> Helper(magnitude, base) == Helper(absValue, base) + result
        invariant absValue == 0 ==> Helper(magnitude, base) == result
      {
        LoopStep(absValue, base, result);
        result := [DigitChar(absValue % base)] + result;
        absValue := absValue / base;
      }
      NegativeIsSignAndMagnitude(n, base);
      return Ok("-" + result);
    }
    var m: int32 := if n < 0 then -n else n;
    ghost var magnitude: nat := m;
    var result: string := "";
    while m > 0
      invariant m >= 0
      invariant m > 0 ==> Helper(magnitude, base) == Helper(m, base) + result
      invariant m == 0 ==> Helper(magnitude, base) == result
    {
      LoopStep(m, base, result);
      result := [DigitChar(m % base)] + result;
      m := m / base;
    }
    if isNegative {
      NegativeIsSignAndMagnitude(n, base);
      result := "-" + result;
    }
    return Ok(result);
  }
}
