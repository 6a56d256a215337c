/** Binary time: seconds and a 64-bit binary fraction of a second. */
module Bintimes {
  import opened Widths
  import opened FixedWidth
  import opened Powers

  /** The time in units of 2^-64 seconds. */
  function Units(sec: int, frac: int): int { sec * TWO64 + frac }

  /** Wrapping the seconds to 64 bits wraps the whole value to 128. */
  lemma SecondsWrapped(sec: int, frac: U64)
    ensures Units(Signed64(sec), frac) == Signed128(Units(sec, frac))
  {
    Signed64Exact(sec);
    var k :| Signed64(sec) == sec + k * TWO64;
    assert TWO128 == TWO64 * TWO64 && TWO127 == TWO63 * TWO64;
    assert Units(Signed64(sec), frac) == Units(sec, frac) + k * TWO128;
    Signed128Unique(Units(sec, frac), Units(Signed64(sec), frac), k);
  }

  class Bintime {
    var sec: I64
    var frac: U64

    ghost function Value(): int
      reads this
    {
      Units(sec, frac)
    }

    constructor (sec: I64, frac: U64)
      ensures this.sec == sec && this.frac == frac
    {
      this.sec, this.frac := sec, frac;
    }

    /** bintime_addx */
    method Addx(x: U64)
      modifies this
      ensures Value() == Signed128(old(Value()) + x)
    {
      var u := frac;
      frac := Wrap64(frac + x);
      if u > frac {
        SecondsWrapped(sec + 1, frac);
        sec := Signed64(sec + 1);
      } else {
        SecondsWrapped(sec, frac);
      }
    }

    /** bintime_add: adding a time to itself counts a carry twice. */
    method Add(other: Bintime)
      modifies this
      ensures Value() == Signed128(old(Value()) + old(other.Value())
        + if other == this && old(frac) >= TWO63 then TWO64 else 0)
    {
      var u := frac;
      ghost var s, s2, f2 := sec, other.sec, other.frac;
      frac := Wrap64(frac + other.frac);
      if u > frac {
        sec := Signed64(sec + 1);
      }
      if other == this {
        Doubled(s, u);
      } else {
        Summed(s, u, s2, f2);
      }
      sec := Signed64(sec + other.sec);
    }

    /** bintime_sub */
    method Sub(other: Bintime)
      modifies this
      ensures Value() == Signed128(old(Value()) - old(other.Value()))
    {
      var u := frac;
      ghost var s, s2, f2 := sec, other.sec, other.frac;
      frac := Wrap64(frac - other.frac);
      if u < frac {
        sec := Signed64(sec - 1);
      }
      Subtracted(s, u, s2, f2);
      sec := Signed64(sec - other.sec);
    }

    /** bintime_mul, with two 32-bit by 32-bit products. */
    method Mul(x: U32)
      modifies this
      ensures Value() == Signed128(old(Value()) * x)
    {
      ghost var s, f := sec, frac;
      var p1 := LowProduct(frac, x);
      var p2 := HighProduct(frac, x, p1);
      sec := Signed64(sec * x);
      sec := Signed64(sec + p2 / TWO32);
      // the two parts have no bit in common
      frac := Joined(p2, p1);
      ProductParts(f, x);
      SecondsOfProduct(s, f, x, p2 / TWO32, frac);
    }

    /** bintime_shift by 1 to 63 bits: to the left a product, to the right a floor division. */
    method Shift(exp: int)
      requires -63 <= exp <= 63
      modifies this
      ensures exp >= 0 ==> Value() == Signed128(old(Value()) * Pow2(exp))
      ensures exp < 0 ==> Value() == old(Value()) / Pow2(-exp)
    {
      ghost var s, f := sec, frac;
      if exp > 0 {
        var q, r := Pow2(exp), Pow2(64 - exp);
        ShiftFactors(exp);
        ShiftedLeft(s, f, q, r);
        // each `|` joins numbers without a common bit: DisjointLeft and DisjointRight
        sec := Signed64(sec * q) + frac / r;
        frac := Wrap64(frac * q);
      } else if exp < 0 {
        var q, r := Pow2(-exp), Pow2(64 + exp);
        ShiftFactors(-exp);
        ShiftedRight(s, f, q, r);
        frac := frac / q + Wrap64(sec * r);
        sec := sec / q;
      } else {
        ValueFits(s, f);
      }
    }

    /** timespec2bintime */
    method FromTimespec(sec: I64, nsec: I32)
      modifies this
      ensures this.sec == sec && this.frac == NsToFraction(nsec)
    {
      this.sec, this.frac := sec, Wrap64(nsec * 18446744073);
    }

    /** bintime2timespec */
    method ToTimespec() returns (s: I64, nsec: int)
      ensures s == sec && nsec == FractionToNs(frac) && 0 <= nsec < 1_000_000_000
    {
      s, nsec := sec, 1_000_000_000 * (frac / TWO32) / TWO32;
    }

    /** timeval2bintime */
    method FromTimeval(sec: I64, usec: I32)
      modifies this
      ensures this.sec == sec && this.frac == UsToFraction(usec)
    {
      this.sec, this.frac := sec, Wrap64(usec * 18446744073709);
    }

    /** bintime2timeval */
    method ToTimeval() returns (s: I64, usec: int)
      ensures s == sec && usec == FractionToUs(frac) && 0 <= usec < 1_000_000
    {
      s, usec := sec, 1_000_000 * (frac / TWO32) / TWO32;
    }
  }

  lemma ShiftFactors(n: int)
    requires 1 <= n <= 63
    ensures var q, r := Pow2(n), Pow2(64 - n); q * r == TWO64 && q * (r / 2) == TWO63 && q > 0 && r > 0 && r % 2 == 0
  {
    Pow2Sum(n, 64 - n);
    Pow2Of64();
    assert Pow2(64 - n) == 2 * Pow2(63 - n);
    HalfFactor(Pow2(n), Pow2(63 - n));
  }

  lemma HalfFactor(q: int, h: int)
    ensures q * (2 * h) == 2 * (q * h) && (2 * h) / 2 == h && (2 * h) % 2 == 0
  {
    assert q * (2 * h) == 2 * (q * h);
  }

  lemma ValueFits(s: I64, f: U64)
    ensures Signed128(Units(s, f)) == Units(s, f)
  {
    Signed128Exact(Units(s, f));
  }

  /** The shifted seconds are a multiple of `q`, what comes in from the fraction is below `q`. */
  lemma DisjointLeft(s: int, f: U64, q: int, r: int)
    requires q * r == TWO64 && q * (r / 2) == TWO63 && q > 0 && r > 0
    ensures Signed64(s * q) % q == 0 && 0 <= f / r < q && Fits64(Signed64(s * q) + f / r)
  {
    var m := SecondsFactor(s, q, r);
    DivModIs(Signed64(s * q), q, m, 0);
    BelowFactor(f, r, q);
    RoomBelow(Signed64(s * q), m, q, r);
  }

  lemma SecondsFactor(s: int, q: int, r: int) returns (m: int)
    requires q * r == TWO64
    ensures Signed64(s * q) == m * q
  {
    Signed64Exact(s * q);
    var k :| Signed64(s * q) == s * q + k * TWO64;
    m := s + k * r;
    Factored(s, k, r, q);
  }

  lemma Factored(s: int, k: int, r: int, q: int)
    ensures (s + k * r) * q == s * q + k * (q * r)
  {
    assert (s + k * r) * q == s * q + (k * r) * q;
    assert (k * r) * q == k * (q * r);
  }

  /** A multiple of `q` in 64 bits leaves room for what is below `q`. */
  lemma RoomBelow(y: I64, m: int, q: int, r: int)
    requires y == m * q && q * (r / 2) == TWO63 && q > 0
    ensures y + q <= TWO63
  {
    var h := r / 2;
    assert h * q == q * h;
    Multiple(m, h, q);
  }

  lemma Multiple(m: int, n: int, q: int)
    requires m * q < n * q && q > 0
    ensures m * q + q <= n * q
  {
    MultipleGrows(n - m, q);
    assert (n - m) * q == n * q - m * q;
  }

  lemma BelowFactor(f: int, r: int, q: int)
    requires 0 <= f < q * r && r > 0
    ensures 0 <= f / r < q && f == (f / r) * r + f % r
  {
    var a := f / r;
    assert f == a * r + f % r;
    MultipleGrows(a - q + 1, r);
    assert (a - q + 1) * r == a * r - q * r + r;
    MultipleGrows(a, r);
  }

  /** The part of a shifted fraction that stays, and the part that moves to the seconds. */
  lemma FractionShifted(f: U64, q: int, r: int)
    requires q * r == TWO64 && q > 0 && r > 0
    ensures f * q == (f / r) * TWO64 + (f % r) * q && Wrap64(f * q) == (f % r) * q
  {
    var a, b := f / r, f % r;
    assert f * q == a * TWO64 + b * q by {
      assert f == a * r + b;
      assert (a * r + b) * q == (a * r) * q + b * q;
      assert (a * r) * q == a * (q * r);
    }
    ProductGrows(b, q, r - 1, q);
    assert (r - 1) * q == q * r - q;
    DivModIs(f * q, TWO64, a, b * q);
  }

  lemma ShiftedLeft(s: I64, f: U64, q: int, r: int)
    requires q * r == TWO64 && q * (r / 2) == TWO63 && q > 0 && r > 0
    ensures Fits64(Signed64(s * q) + f / r)
    ensures Units(Signed64(s * q) + f / r, Wrap64(f * q)) == Signed128(Units(s, f) * q)
  {
    DisjointLeft(s, f, q, r);
    BelowFactor(f, r, q);
    var a, b := f / r, f % r;
    FractionShifted(f, q, r);
    Signed64Exact(Signed64(s * q) + a);
    SignedTwice(s * q, a);
    SecondsOfProduct(s, f, q, a, b * q);
  }

  /** The shifted fraction is below `r`, what comes in from the seconds is a multiple of `r`. */
  lemma DisjointRight(s: int, f: U64, q: int, r: int)
    requires q * r == TWO64 && q > 0 && r > 0
    ensures Wrap64(s * r) == (s % q) * r && 0 <= f / q < r && f / q + Wrap64(s * r) < TWO64
  {
    var a, b := s / q, s % q;
    assert s * r == a * TWO64 + b * r by { assert (a * q + b) * r == a * (q * r) + b * r; }
    ProductGrows(b, r, q - 1, r);
    assert (q - 1) * r == q * r - r;
    DivModIs(s * r, TWO64, a, b * r);
    BelowFactor(f, q, r);
  }

  lemma ShiftedRight(s: I64, f: U64, q: int, r: int)
    requires q * r == TWO64 && q > 0 && r > 0
    ensures 0 <= f / q + Wrap64(s * r) < TWO64 && Fits64(s / q)
    ensures Units(s / q, f / q + Wrap64(s * r)) == Units(s, f) / q
  {
    DisjointRight(s, f, q, r);
    var a, b, c, d := s / q, s % q, f / q, f % q;
    assert s == a * q + b && f == c * q + d;
    assert Units(s, f) == (a * TWO64 + b * r + c) * q + d by {
      assert b * TWO64 == (b * r) * q by { assert b * (q * r) == (b * r) * q; }
      assert (a * TWO64) * q == (a * q) * TWO64;
    }
    DivModIs(Units(s, f), q, a * TWO64 + b * r + c, d);
    Quotients(s, q);
  }

  lemma Quotients(s: I64, q: int)
    requires q > 0
    ensures Fits64(s / q)
  {
    var a := s / q;
    assert s == a * q + s % q;
    if a >= 0 {
      NotNegative(a, q - 1);
      assert a * (q - 1) == a * q - a;
    } else {
      NotNegative(-a - 1, q - 1);
      assert (-a - 1) * (q - 1) == -(a * q) + a - q + 1;
    }
  }

  function LowProduct(f: U64, x: U32): U64 { Wrap64((f % TWO32) * x) }
  function HighProduct(f: U64, x: U32, p1: U64): U64 { Wrap64((f / TWO32) * x + p1 / TWO32) }
  function Joined(p2: U64, p1: U64): U64 { Wrap64(p2 * TWO32) + p1 % TWO32 }

  lemma Summed(s: int, f: U64, s2: int, f2: U64)
    ensures var low := Wrap64(f + f2);
      Units(Signed64((if f > low then Signed64(s + 1) else s) + s2), low) == Signed128(Units(s, f) + Units(s2, f2))
  {
    var low := Wrap64(f + f2);
    var carry := if f > low then 1 else 0;
    SecondsOfSum(s, s2, carry);
    SecondsWrapped(s + s2 + carry, low);
  }

  lemma Doubled(s: int, f: U64)
    ensures var low := Wrap64(f + f);
      var t := if f > low then Signed64(s + 1) else s;
      Units(Signed64(t + t), low) == Signed128(Units(s, f) + Units(s, f) + if f >= TWO63 then TWO64 else 0)
  {
    var low := Wrap64(f + f);
    var carry := if f > low then 1 else 0;
    SecondsOfSum(s, s, carry);
    SecondsWrapped(s + s + 2 * carry, low);
  }

  lemma Subtracted(s: int, f: U64, s2: int, f2: U64)
    ensures var low := Wrap64(f - f2);
      Units(Signed64((if f < low then Signed64(s - 1) else s) - s2), low) == Signed128(Units(s, f) - Units(s2, f2))
  {
    var low := Wrap64(f - f2);
    var borrow := if f < low then 1 else 0;
    SignedTwice(s - borrow, -s2);
    SecondsWrapped(s - borrow - s2, low);
  }

  /** The seconds of a sum; those of a time added to itself are incremented before they are doubled. */
  lemma SecondsOfSum(s: int, s2: int, carry: int)
    requires carry in {0, 1}
    ensures var t := if carry == 1 then Signed64(s + 1) else s;
      Signed64(t + s2) == Signed64(s + s2 + carry) && Signed64(t + t) == Signed64(s + s + 2 * carry)
  {
    SignedTwice(s + 1, s2);
    SignedTwice(s + 1, Signed64(s + 1));
    SignedTwice(s + 1, s + 1);
  }

  lemma SecondsOfProduct(s: int, f: U64, x: int, high: int, low: U64)
    requires high * TWO64 + low == f * x
    ensures Units(Signed64(Signed64(s * x) + high), low) == Signed128(Units(s, f) * x)
  {
    SignedTwice(s * x, high);
    SecondsWrapped(s * x + high, low);
    assert Units(s, f) * x == (s * TWO64) * x + f * x;
    assert (s * TWO64) * x == (s * x) * TWO64;
  }

  lemma SignedTwice(a: int, b: int)
    ensures Signed64(Signed64(a) + b) == Signed64(a + b)
  {
    Signed64Exact(a);
    var k :| Signed64(a) == a + k * TWO64;
    Signed64Shift(a + b, k);
  }

  lemma Signed64Shift(x: int, k: int)
    ensures Signed64(x + k * TWO64) == Signed64(x)
  {
    var y := x + TWO63;
    DivModIs(y + k * TWO64, TWO64, y / TWO64 + k, y % TWO64);
  }

  /** A 64-bit by 32-bit product from two halves. */
  lemma ProductParts(f: U64, x: U32)
    ensures var p1 := LowProduct(f, x);
      var p2 := HighProduct(f, x, p1);
      (p2 / TWO32) * TWO64 + Joined(p2, p1) == f * x
  {
    var lo, hi := f % TWO32, f / TWO32;
    SmallProduct(lo, x);
    SmallProduct(hi, x);
    NoWrap(lo * x);
    NoWrap(hi * x + lo * x / TWO32);
    HalvesJoined(lo * x, hi * x);
    assert f == hi * TWO32 + lo;
    assert f * x == (hi * TWO32) * x + lo * x;
    assert (hi * TWO32) * x == (hi * x) * TWO32;
  }

  lemma NoWrap(y: int)
    requires 0 <= y < TWO64
    ensures Wrap64(y) == y
  {
  }

  lemma HalvesJoined(low: U64, high: int)
    requires 0 <= high && high + low / TWO32 < TWO64
    ensures var p2: U64 := high + low / TWO32; (p2 / TWO32) * TWO64 + Joined(p2, low) == high * TWO32 + low
  {
    var p2: U64 := high + low / TWO32;
    DivModIs(p2 * TWO32, TWO64, p2 / TWO32, (p2 % TWO32) * TWO32);
  }

  lemma SmallProduct(a: int, b: int)
    requires 0 <= a < TWO32 && 0 <= b < TWO32
    ensures 0 <= a * b <= (TWO32 - 1) * (TWO32 - 1)
  {
    ProductGrows(a, b, TWO32 - 1, TWO32 - 1);
  }

  /** What was added can be taken away again, whether or not the sum overflowed. */
  lemma SubUndoesAdd(s: I64, f: U64, s2: int, f2: U64)
    ensures Signed128(Signed128(Units(s, f) + Units(s2, f2)) - Units(s2, f2)) == Units(s, f)
  {
    var a, b := Units(s, f), Units(s2, f2);
    var k := (a + b + TWO127) / TWO128;
    assert Signed128(a + b) == a + b - k * TWO128;
    ValueFits(s, f);
    Signed128Exact(a);
    Signed128Unique(Signed128(a + b) - b, a, k);
  }

  // ----- timespec and bintime: always rounded down

  function NsToFraction(nsec: int): U64 { Wrap64(nsec * 18446744073) }
  function FractionToNs(frac: U64): int { 1_000_000_000 * (frac / TWO32) / TWO32 }
  function UsToFraction(usec: int): U64 { Wrap64(usec * 18446744073709) }
  function FractionToUs(frac: U64): int { 1_000_000 * (frac / TWO32) / TWO32 }

  /** To a fraction of 2^-64 seconds: never above the decimal one, and less than one such unit below it for
      each decimal unit. */
  lemma FractionsRoundedDown(nsec: int, usec: int)
    requires 0 <= nsec < 1_000_000_000 && 0 <= usec < 1_000_000
    ensures 1_000_000_000 * NsToFraction(nsec) <= nsec * TWO64 <= 1_000_000_000 * (NsToFraction(nsec) + nsec)
    ensures 1_000_000 * UsToFraction(usec) <= usec * TWO64 <= 1_000_000 * (UsToFraction(usec) + usec)
  {
    NoWrap(nsec * 18446744073);
    NoWrap(usec * 18446744073709);
  }

  /** From a fraction: never above it, and less than one decimal unit below what its upper half says. */
  lemma DecimalsRoundedDown(frac: U64)
    ensures FractionToNs(frac) * TWO64 <= 1_000_000_000 * frac
    ensures 1_000_000_000 * frac < (FractionToNs(frac) + 1) * TWO64 + 1_000_000_000 * TWO32
    ensures FractionToUs(frac) * TWO64 <= 1_000_000 * frac
    ensures 1_000_000 * frac < (FractionToUs(frac) + 1) * TWO64 + 1_000_000 * TWO32
  {
    var h, l := frac / TWO32, frac % TWO32;
    assert frac == h * TWO32 + l;
    var a, b := 1_000_000_000 * h, 1_000_000 * h;
    assert a == (a / TWO32) * TWO32 + a % TWO32 && b == (b / TWO32) * TWO32 + b % TWO32;
  }

  /** On the way through a bintime every nanosecond and microsecond count but zero loses one. */
  lemma BintimeLosesOne(nsec: int, usec: int)
    requires 0 <= nsec < 1_000_000_000 && 0 <= usec < 1_000_000
    ensures FractionToNs(NsToFraction(nsec)) == if nsec == 0 then 0 else nsec - 1
    ensures FractionToUs(UsToFraction(usec)) == if usec == 0 then 0 else usec - 1
  {
    LosesOne(nsec, 1_000_000_000, 18446744073);
    LosesOne(usec, 1_000_000, 18446744073709);
  }

  lemma LosesOne(x: int, unit: int, k: int)
    requires (unit == 1_000_000_000 && k == 18446744073) || (unit == 1_000_000 && k == 18446744073709)
    requires 0 <= x < unit
    ensures unit * (Wrap64(x * k) / TWO32) / TWO32 == if x == 0 then 0 else x - 1
  {
    var h, y := x * k / TWO32, if x == 0 then 0 else x - 1;
    NoWrap(x * k);
    assert unit == 1_000_000 ==> 0 <= 1_000_000 * h - y * TWO32 < TWO32;
    assert unit == 1_000_000_000 ==> 0 <= 1_000_000_000 * h - y * TWO32 < TWO32;
    DivModIs(unit * h, TWO32, y, unit * h - y * TWO32);
  }
}
