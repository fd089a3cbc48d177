/** Java's 32-bit `int`: its range, its truncating `/` and `%`, and two's-complement
    wrap-around of addition and negation. Dafny's own `/` and `%` are Euclidean. */
module Int32 {

  const MIN: int := -0x8000_0000
  const MAX: int := 0x7fff_ffff
  const MODULUS: int := 0x1_0000_0000

  type int32 = x: int | MIN <= x <= MAX

  /** Java `a / b` for a positive divisor: the quotient rounded toward zero. With Java's
      remainder it rebuilds `a`, and `q * b` lies between 0 and `a`. */
  function Div(a: int, b: int): (q: int)
    requires b > 0
    ensures q * b + Rem(a, b) == a
    ensures a >= 0 ==> 0 <= q * b <= a
    ensures a < 0 ==> a <= q * b <= 0
  {
    if a >= 0 then
      EuclidNonNegative(a, b);
      a / b
    else
      EuclidNonNegative(-a, b);
      NegatedProduct((-a) / b, b);
      -((-a) / b)
  }

  /** For a non-negative dividend, Dafny's and Java's division agree with the division law. */
  lemma EuclidNonNegative(a: int, b: int)
    requires a >= 0 && b > 0
    ensures (a / b) * b + a % b == a && 0 <= (a / b) * b <= a
  {
  }

  /** Negating a factor negates the product. */
  lemma NegatedProduct(m: int, b: int)
    ensures (-m) * b == -(m * b)
  {
  }

  /** Java `a % b` for a positive divisor: `a` minus the remainder is a multiple of `b`, and the
      remainder takes the sign of `a` and is smaller than `b` in magnitude. These three facts
      determine it. */
  function Rem(a: int, b: int): (r: int)
    requires b > 0
    ensures (a - r) % b == 0
    ensures a >= 0 ==> 0 <= r < b
    ensures a < 0 ==> -b < r <= 0
  {
    if a >= 0 then
      EuclidNonNegative(a, b);
      MultipleMod(a / b, b);
      a % b
    else
      EuclidNonNegative(-a, b);
      NegatedProduct((-a) / b, b);
      MultipleMod(-((-a) / b), b);
      -((-a) % b)
  }

  /** A multiple of a positive `b` leaves remainder 0. */
  lemma MultipleMod(m: int, b: int)
    requires b > 0
    ensures (m * b) % b == 0
  {
    ModUnique(m * b, m, 0, b);
  }

  /** Dafny's remainder is the only one in [0, b) that completes a quotient. */
  lemma ModUnique(x: int, q: int, r: int, b: int)
    requires b > 0 && x == q * b + r && 0 <= r < b
    ensures x % b == r
  {
    var d := q - x / b;
    assert d * b == q * b - (x / b) * b;
    assert d * b == x % b - r;
  }

  /** The `int` that a mathematical integer becomes after two's-complement overflow. */
  function Wrap(x: int): (r: int32)
    ensures (r - x) % MODULUS == 0
  {
    (x - MIN) % MODULUS + MIN
  }

  /** Java `-n`: negating MIN overflows back to MIN. */
  function Neg(n: int32): (r: int32)
    ensures n != MIN ==> r == -n
    ensures n == MIN ==> r == MIN
  {
    Wrap(-(n as int))
  }

  lemma WrapOfInRange(x: int)
    requires MIN <= x <= MAX
    ensures Wrap(x) == x
  {
  }

  /** Wrapping an intermediate result does not change the final wrapped value. */
  lemma WrapAbsorbs(a: int, b: int)
    ensures Wrap(a + Wrap(b)) == Wrap(a + b)
  {
    var k := (Wrap(b) - b) / MODULUS;
    assert Wrap(b) == b + k * MODULUS;
    ShiftByMultiple(a + b, k);
  }

  lemma ShiftByMultiple(x: int, k: int)
    ensures Wrap(x + k * MODULUS) == Wrap(x)
  {
    var y := x - MIN;
    var q, r := y / MODULUS, y % MODULUS;
    assert y + k * MODULUS == (q + k) * MODULUS + r;
    assert (y + k * MODULUS) % MODULUS == r;
  }
}
