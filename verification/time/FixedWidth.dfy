/** The integer widths of the time arithmetic. */
module FixedWidth {

  const TWO31 := 0x8000_0000
  const TWO32 := 0x1_0000_0000
  const TWO63 := 0x8000_0000_0000_0000
  const TWO64 := 0x1_0000_0000_0000_0000
  const TWO127 := 0x8000_0000_0000_0000_0000_0000_0000_0000
  const TWO128 := 0x1_0000_0000_0000_0000_0000_0000_0000_0000

  type I32 = x: int | -0x8000_0000 <= x < 0x8000_0000
  type U64 = x: int | 0 <= x < 0x1_0000_0000_0000_0000
  type I64 = x: int | -0x8000_0000_0000_0000 <= x < 0x8000_0000_0000_0000

  /** Unsigned 64-bit arithmetic wraps around. */
  function Wrap64(x: int): U64 { x % TWO64 }

  /** Two's complement, of 32, 64 and 128 bits. */
  function Signed32(x: int): I32 { (x + TWO31) % TWO32 - TWO31 }
  function Signed64(x: int): I64 { (x + TWO63) % TWO64 - TWO63 }
  function Signed128(x: int): int { (x + TWO127) % TWO128 - TWO127 }

  predicate Fits64(x: int) { -TWO63 <= x < TWO63 }
  predicate Fits128(x: int) { -TWO127 <= x < TWO127 }

  lemma Signed64Exact(x: int)
    ensures Fits64(x) <==> Signed64(x) == x
    ensures exists k: int :: Signed64(x) == x + k * TWO64
  {
    var y := x + TWO63;
    assert y == (y / TWO64) * TWO64 + y % TWO64;
    assert Signed64(x) == x + (-(y / TWO64)) * TWO64;
  }

  lemma Signed128Exact(x: int)
    ensures Fits128(x) <==> Signed128(x) == x
  {
  }

  /** A number in range that differs by a multiple of 2^128 is the wrapped one. */
  lemma Signed128Unique(x: int, y: int, k: int)
    requires y == x + k * TWO128 && Fits128(y)
    ensures Signed128(x) == y
  {
    DivModIs(x + TWO127, TWO128, -k, y + TWO127);
  }

  lemma DivModIs(a: int, b: int, q: int, r: int)
    requires 0 <= r < b && a == q * b + r
    ensures a / b == q && a % b == r
  {
    var q' := a / b;
    assert a == q' * b + a % b;
    assert (q - q') * b == q * b - q' * b;
    Quotient(b, q - q', a % b - r);
  }

  lemma Quotient(b: int, d: int, r: int)
    requires 0 < b && -b < r < b && d * b == r
    ensures d == 0
  {
    MultipleGrows(d, b);
  }

  lemma MultipleGrows(d: int, b: int)
    requires 0 < b
    ensures d >= 1 ==> d * b >= b
    ensures d <= -1 ==> d * b <= -b
  {
    if d >= 1 {
      NotNegative(d - 1, b);
      assert (d - 1) * b == d * b - b;
    } else if d <= -1 {
      NotNegative(-d - 1, b);
      assert (-d - 1) * b == -(d * b) - b;
    }
  }

  lemma ProductGrows(a: int, b: int, c: int, d: int)
    requires 0 <= a <= c && 0 <= b <= d
    ensures 0 <= a * b <= c * d
  {
    NotNegative(a, b);
    NotNegative(a, d - b);
    NotNegative(c - a, d);
    assert a * (d - b) == a * d - a * b;
    assert (c - a) * d == c * d - a * d;
  }

  lemma NotNegative(a: int, b: int)
    requires 0 <= a && 0 <= b
    ensures 0 <= a * b
  {
  }
}
