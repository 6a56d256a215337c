/** Times as 64-bit numbers with 32 fraction bits, and their decimal conversions. */
module Sbintimes {
  import opened FixedWidth
  import opened Bintimes

  const SBT_1S := 0x1_0000_0000

  // ----- between the binary forms

  function BtToSbt(sec: I64, frac: U64): I64 { Signed64(Wrap64(Wrap64(sec * TWO32) + frac / TWO32)) }

  function SbtSeconds(sbt: I64): I64 { sbt / TWO32 }

  function SbtFraction(sbt: I64): U64 { Wrap64(sbt * TWO32) }

  /** sbttobt and back is the identity; the other way, the low 32 fraction bits are dropped when the seconds fit
      in 32. */
  lemma BinaryRoundTrips(sbt: I64, sec: I64, frac: U64)
    ensures BtToSbt(SbtSeconds(sbt), SbtFraction(sbt)) == sbt
    ensures Units(SbtSeconds(sbt), SbtFraction(sbt)) == sbt * TWO32
    ensures -TWO31 <= sec < TWO31 ==>
      SbtSeconds(BtToSbt(sec, frac)) == sec && SbtFraction(BtToSbt(sec, frac)) == (frac / TWO32) * TWO32
  {
    var h, l := sbt / TWO32, sbt % TWO32;
    DivModIs(sbt * TWO32, TWO64, h, l * TWO32);
    DivModIs(l * TWO32, TWO32, l, 0);
    SameSigned(h * TWO32, l, sbt);
    if -TWO31 <= sec < TWO31 {
      var f := frac / TWO32;
      SameSigned(sec * TWO32, f, sec * TWO32 + f);
      DivModIs(sec * TWO32 + f, TWO32, sec, f);
      DivModIs((sec * TWO32 + f) * TWO32, TWO64, sec, f * TWO32);
    }
  }

  lemma SameSigned(a: int, b: int, y: I64)
    requires y == a + b
    ensures Signed64(Wrap64(Wrap64(a) + b)) == y
  {
    var k := a / TWO64;
    assert Wrap64(a) == a - k * TWO64;
    var m := (Wrap64(a) + b) / TWO64;
    assert Wrap64(Wrap64(a) + b) == y + (-k - m) * TWO64;
    Signed64Shift(y, -k - m);
    Signed64Exact(y);
  }

  // ----- decimal units: `unit` of them are a second, `k` is 2^63 / unit rounded up

  /** ((x * k) + 0x7fffffff) >> 31 in unsigned arithmetic. */
  function Scaled(x: int, k: int): U64 { Wrap64(Wrap64(x * k) + 0x7fff_ffff) / TWO31 }

  function FromUnits(x: I64, unit: int, k: int): I64
    requires unit > 0
  {
    if x >= SBT_1S then Signed64((x / unit) * SBT_1S + Scaled(x % unit, k)) else Signed64(Scaled(x, k))
  }

  function NsToSbt(ns: I64): I64 { FromUnits(ns, 1_000_000_000, 9223372037) }
  function UsToSbt(us: I64): I64 { FromUnits(us, 1_000_000, 9223372036855) }
  function MsToSbt(ms: I64): I64 { FromUnits(ms, 1000, 9223372036854776) }

  function SbtToNs(sbt: I64): I64 {
    var ns := Wrap64(sbt);
    var high := if ns >= SBT_1S then Wrap64((ns / TWO32) * 1_000_000_000) else 0;
    Signed64(Wrap64(high + 1_000_000_000 * (sbt % TWO32) / TWO32))
  }

  function SbtToUs(sbt: I64): I64 { Signed64(1_000_000 * sbt) / TWO32 }
  function SbtToMs(sbt: I64): I64 { Signed64(1000 * sbt) / TWO32 }

  /** The units with their constants: `k` exceeds 2^63 / unit by `d` / unit. */
  predicate Constants(unit: int, k: int, d: int) {
    || (unit == 1_000_000_000 && k == 9223372037 && d == 145224192)
    || (unit == 1_000_000 && k == 9223372036855 && d == 224192)
    || (unit == 1000 && k == 9223372036854776 && d == 192)
  }

  /** What the proofs need of them. */
  lemma ConstantsFit(unit: int, k: int, d: int)
    requires Constants(unit, k, d)
    ensures 1000 <= unit <= 1_000_000_000 && k * unit == TWO63 + d && 0 <= d < unit
    ensures 2 * d + TWO31 <= k && 2 * unit * d + unit * TWO31 <= TWO63
  {
  }

  /** Below two seconds nothing wraps, and the scaled number is the quotient by 2^31 rounded up. */
  lemma ScaledUp(x: int, unit: int, k: int, d: int)
    requires Constants(unit, k, d) && 0 <= x < 2 * unit
    ensures 0 <= x * k && x * k <= Scaled(x, k) * TWO31 <= x * k + TWO31 - 1
    ensures Scaled(x, k) < 0x2_0000_0001
  {
    ConstantsFit(unit, k, d);
    NotNegative(x, k);
    ProductGrows(x, k, 2 * unit - 1, k);
    assert (2 * unit - 1) * k == 2 * (k * unit) - k;
    NoWrap(x * k);
    NoWrap(x * k + 0x7fff_ffff);
    assert Scaled(x, k) == (x * k + 0x7fff_ffff) / TWO31;
  }

  /** Scaling back and rounding down gives the number again. */
  lemma ScaledBack(x: int, unit: int, k: int, d: int)
    requires Constants(unit, k, d) && 0 <= x < 2 * unit
    ensures unit * Scaled(x, k) / TWO32 == x
    ensures x < unit ==> Scaled(x, k) < TWO32
  {
    ConstantsFit(unit, k, d);
    ScaledUp(x, unit, k, d);
    var s := Scaled(x, k);
    Bracket(x, unit, k, d, s);
    DivModIs(unit * s, TWO32, x, unit * s - x * TWO32);
    MultipleGrows(s - TWO32 + 1, unit);
    assert (s - TWO32 + 1) * unit == unit * s - unit * TWO32 + unit;
  }

  /** x <= unit * s / 2^32 < x + 1 */
  lemma Bracket(x: int, unit: int, k: int, d: int, s: int)
    requires Constants(unit, k, d) && 0 <= x < 2 * unit && x * k <= s * TWO31 <= x * k + TWO31 - 1
    ensures x * TWO32 <= unit * s < x * TWO32 + TWO32
  {
    ConstantsFit(unit, k, d);
    assert unit * (x * k) == x * (k * unit) == x * TWO63 + x * d;
    ProductGrows(unit, x * k, unit, s * TWO31) by { NotNegative(x, k); }
    assert unit * (s * TWO31) == (unit * s) * TWO31;
    NotNegative(x, d);
    ProductGrows(unit, s * TWO31, unit, x * k + TWO31 - 1) by { NotNegative(x, k); }
    assert unit * (x * k + TWO31 - 1) == unit * (x * k) + unit * TWO31 - unit;
    ProductGrows(x, d, 2 * unit, d);
    assert (unit * s) * TWO31 < x * TWO63 + TWO63;
  }

  /** A scaled number is below 2^33: what came from two seconds or more cannot come back. */
  lemma NeverAbove(x: int, unit: int, k: int)
    requires 0 < unit
    ensures 0 <= unit * Scaled(x, k) / TWO32 < 2 * unit && Scaled(x, k) < 0x2_0000_0000
  {
    var s := Scaled(x, k);
    ProductGrows(unit, s, unit, 0x2_0000_0000 - 1);
    BelowFactor(unit * s, TWO32, 2 * unit);
  }

  /** Nanoseconds there and back: right below two seconds, and from 2^32 ns on as long as the seconds do not
      overflow; wrong for every other number. */
  lemma NsRoundTrip(ns: I64)
    requires ns < TWO31 * 1_000_000_000
    ensures SbtToNs(NsToSbt(ns)) == ns <==> 0 <= ns < 2_000_000_000 || TWO32 <= ns
  {
    if ns >= TWO32 {
      var sec, rest := ns / 1_000_000_000, ns % 1_000_000_000;
      ScaledBack(rest, 1_000_000_000, 9223372037, 145224192);
      NsBack(sec, Scaled(rest, 9223372037));
    } else {
      var s := Scaled(ns, 9223372037);
      NeverAbove(ns, 1_000_000_000, 9223372037);
      SmallNs(s);
      if 0 <= ns < 2_000_000_000 {
        ScaledBack(ns, 1_000_000_000, 9223372037, 145224192);
      }
    }
  }

  lemma NsBack(sec: int, f: int)
    requires 0 <= sec < TWO31 && 0 <= f < TWO32
    ensures Signed64(sec * SBT_1S + f) == sec * SBT_1S + f
    ensures SbtToNs(sec * SBT_1S + f) == sec * 1_000_000_000 + 1_000_000_000 * f / TWO32
  {
    var sbt := sec * SBT_1S + f;
    DivModIs(sbt, TWO32, sec, f);
    BelowFactor(1_000_000_000 * f, TWO32, 1_000_000_000);
    NsWithin(sbt, sec, f, 1_000_000_000 * f / TWO32);
  }

  lemma NsWithin(sbt: int, sec: int, f: int, low: int)
    requires 0 <= sec < TWO31 && 0 <= f < TWO32 && sbt == sec * SBT_1S + f && sbt / TWO32 == sec && sbt % TWO32 == f
    requires low == 1_000_000_000 * f / TWO32 && 0 <= low < 1_000_000_000
    ensures Signed64(sbt) == sbt && SbtToNs(sbt) == sec * 1_000_000_000 + low
  {
    NoWrap(sbt);
    NoWrap(sec * 1_000_000_000);
    NoWrap(sec * 1_000_000_000 + low);
    Signed64Exact(sbt);
    Signed64Exact(sec * 1_000_000_000 + low);
  }

  /** For a number of at most two seconds the conversion is one multiplication. */
  lemma SmallNs(s: int)
    requires 0 <= s < 0x2_0000_0000
    ensures Signed64(s) == s && SbtToNs(s) == 1_000_000_000 * s / TWO32
  {
    var h, l := s / TWO32, s % TWO32;
    NsBack(h, l);
    BillionTimes(h, l);
  }

  lemma BillionTimes(h: int, l: int)
    requires 0 <= l < TWO32
    ensures 1_000_000_000 * (h * TWO32 + l) / TWO32 == h * 1_000_000_000 + 1_000_000_000 * l / TWO32
  {
    var q, r := 1_000_000_000 * l / TWO32, 1_000_000_000 * l % TWO32;
    DivModIs(1_000_000_000 * (h * TWO32 + l), TWO32, h * 1_000_000_000 + q, r);
  }

  /** Microseconds there and back: right exactly below two seconds. */
  lemma UsRoundTrip(us: I64)
    ensures SbtToUs(UsToSbt(us)) == us <==> 0 <= us < 2_000_000
  {
    RoundTrip(us, 1_000_000, 9223372036855, 224192);
  }

  lemma MsRoundTrip(ms: I64)
    ensures SbtToMs(MsToSbt(ms)) == ms <==> 0 <= ms < 2000
  {
    RoundTrip(ms, 1000, 9223372036854776, 192);
  }

  lemma RoundTrip(x: I64, unit: int, k: int, d: int)
    requires Constants(unit, k, d) && unit <= 1_000_000
    ensures Signed64(unit * FromUnits(x, unit, k)) / TWO32 == x <==> 0 <= x < 2 * unit
  {
    ConstantsFit(unit, k, d);
    if x < SBT_1S {
      var s := Scaled(x, k);
      NeverAbove(x, unit, k);
      ProductGrows(unit, s, 1_000_000, 0x2_0000_0000);
      Signed64Exact(s);
      Signed64Exact(unit * s);
      if 0 <= x < 2 * unit {
        ScaledBack(x, unit, k, d);
      }
    } else {
      HighHalf(Signed64(unit * FromUnits(x, unit, k)));
    }
  }

  lemma HighHalf(y: I64)
    ensures -TWO31 <= y / TWO32 < TWO31
  {
  }

  // ----- every 64-bit number

  /** `s` binary units, read as decimal ones and rounded down, are `x`. */
  predicate Lasts(x: int, unit: int, s: int) { x * TWO32 <= unit * s < (x + 1) * TWO32 }

  /** To binary time: right below two seconds, and from 2^32 decimal units on while the seconds fit in 31 bits;
      wrong for every other number. */
  lemma UnitsExact(x: I64, unit: int, k: int, d: int)
    requires Constants(unit, k, d)
    ensures Lasts(x, unit, FromUnits(x, unit, k)) <==> 0 <= x < 2 * unit || (TWO32 <= x && x / unit < TWO31)
  {
    ConstantsFit(unit, k, d);
    if x >= TWO32 {
      FromSeconds(x, unit, k, d);
    } else {
      var s := Scaled(x, k);
      NeverAbove(x, unit, k);
      Signed64Exact(s);
      assert unit * s < 2 * unit * TWO32;
      NotNegative(unit, s);
      if 0 <= x < 2 * unit {
        ScaledUp(x, unit, k, d);
        Bracket(x, unit, k, d, s);
      }
    }
  }

  lemma FromSeconds(x: I64, unit: int, k: int, d: int)
    requires Constants(unit, k, d) && TWO32 <= x
    ensures Lasts(x, unit, FromUnits(x, unit, k)) <==> x / unit < TWO31
  {
    ConstantsFit(unit, k, d);
    var sec, rest := x / unit, x % unit;
    var f := Scaled(rest, k);
    ScaledBack(rest, unit, k, d);
    ScaledUp(rest, unit, k, d);
    Bracket(rest, unit, k, d, f);
    assert x == sec * unit + rest && sec >= 0;
    SecondsFit(x, unit, sec, rest, f, FromUnits(x, unit, k));
  }

  lemma SecondsFit(x: int, unit: int, sec: int, rest: int, f: int, s: I64)
    requires 0 < unit && x == sec * unit + rest && 0 <= sec && 0 <= rest && 0 <= f < TWO32
    requires rest * TWO32 <= unit * f < (rest + 1) * TWO32 && s == Signed64(sec * SBT_1S + f)
    ensures Lasts(x, unit, s) <==> sec < TWO31
  {
    if sec < TWO31 {
      Signed64Exact(sec * SBT_1S + f);
      assert unit * (sec * SBT_1S + f) == (sec * unit) * TWO32 + unit * f;
    } else {
      SecondsOverflow(unit, sec, s);
    }
  }

  lemma SecondsOverflow(unit: int, sec: int, s: I64)
    requires 0 < unit && TWO31 <= sec
    ensures unit * s < (sec * unit) * TWO32
  {
    NotNegative(unit, TWO63 - 1 - s);
    NotNegative(sec - TWO31, unit);
    assert unit * (TWO63 - 1 - s) == unit * TWO63 - unit - unit * s;
    assert (sec - TWO31) * unit == sec * unit - TWO31 * unit;
  }

  /** Nanoseconds of a binary time, rounded down: right exactly when it is not negative. */
  lemma NsExact(sbt: I64)
    ensures Lasts(SbtToNs(sbt), 1_000_000_000, sbt) <==> sbt >= 0
  {
    var sec, f := sbt / TWO32, sbt % TWO32;
    var low := 1_000_000_000 * f / TWO32;
    BelowFactor(1_000_000_000 * f, TWO32, 1_000_000_000);
    if sbt >= 0 {
      NsBack(sec, f);
    } else {
      var up := sec + TWO32;
      DivModIs(sbt + TWO64, TWO32, up, f);
      DivModIs(sbt, TWO64, -1, sbt + TWO64);
      NoWrap(up * 1_000_000_000);
      NoWrap(up * 1_000_000_000 + low);
      Signed64Exact(up * 1_000_000_000 + low);
    }
  }

  /** Microseconds and milliseconds, rounded down: right exactly while the product fits in 64 bits. */
  lemma UsMsExact(sbt: I64)
    ensures Lasts(SbtToUs(sbt), 1_000_000, sbt) <==> Fits64(1_000_000 * sbt)
    ensures Lasts(SbtToMs(sbt), 1000, sbt) <==> Fits64(1000 * sbt)
  {
    ProductRounded(1_000_000 * sbt);
    ProductRounded(1000 * sbt);
  }

  lemma ProductRounded(y: int)
    ensures var q := Signed64(y) / TWO32; q * TWO32 <= y < (q + 1) * TWO32 <==> Fits64(y)
  {
    var z := Signed64(y);
    Signed64Exact(y);
    var k :| z == y + k * TWO64;
    MultipleGrows(k, TWO64);
    assert z == (z / TWO32) * TWO32 + z % TWO32;
  }

  // ----- rounding

  /** The smallest number of binary units that lasts at least `x` decimal units. */
  predicate Smallest(x: int, unit: int, s: int) {
    x * TWO32 <= unit * s && unit * (s - 1) < x * TWO32
  }

  /** A conversion never falls short and is at most one unit too long. It is the smallest possible exactly when
      the distance to the next binary unit makes up for the rounding of the constant. */
  lemma RoundedUp(x: int, unit: int, k: int, d: int)
    requires Constants(unit, k, d) && 0 <= x < 2 * unit
    ensures x * TWO32 <= unit * Scaled(x, k) && unit * (Scaled(x, k) - 2) < x * TWO32
    ensures Smallest(x, unit, Scaled(x, k)) <==> x * d <= TWO31 * ((-(x * TWO32)) % unit)
  {
    ConstantsFit(unit, k, d);
    ScaledUp(x, unit, k, d);
    var s, r := Scaled(x, k), (-(x * TWO32)) % unit;
    Bracket(x, unit, k, d, s);
    var c := -((-(x * TWO32)) / unit);
    assert unit * c == x * TWO32 + r;
    NoShorter(x, unit, c, r, s);
    ConstantExcess(x, unit, k, d, c, r);
    if x * k <= c * TWO31 {
      assert s <= c;
    } else {
      assert s >= c + 1;
      ProductGrows(unit, s - c - 1, unit, s - c - 1);
      assert unit * (s - c - 1) == unit * (s - 1) - unit * c;
    }
    AtMostOneMore(x, unit, k, d, s);
  }

  lemma NoShorter(x: int, unit: int, c: int, r: int, s: int)
    requires 0 < unit && unit * c == x * TWO32 + r && 0 <= r < unit && x * TWO32 <= unit * s
    ensures s >= c && unit * (c - 1) < x * TWO32
  {
    MultipleGrows(c - s, unit);
    assert (c - s) * unit == unit * c - unit * s;
    assert unit * (c - 1) == unit * c - unit;
  }

  lemma ConstantExcess(x: int, unit: int, k: int, d: int, c: int, r: int)
    requires Constants(unit, k, d) && unit * c == x * TWO32 + r
    ensures x * k <= c * TWO31 <==> x * d <= TWO31 * r
  {
    ConstantsFit(unit, k, d);
    assert unit * (x * k) == x * (k * unit) == x * TWO63 + x * d;
    assert unit * (c * TWO31) == (unit * c) * TWO31 == x * TWO63 + r * TWO31;
    if x * k <= c * TWO31 {
      NotNegative(unit, c * TWO31 - x * k);
      assert unit * (c * TWO31 - x * k) == unit * (c * TWO31) - unit * (x * k);
    } else {
      NotNegative(unit, x * k - c * TWO31 - 1);
      assert unit * (x * k - c * TWO31 - 1) == unit * (x * k) - unit * (c * TWO31) - unit;
    }
  }

  lemma AtMostOneMore(x: int, unit: int, k: int, d: int, s: int)
    requires Constants(unit, k, d) && 0 <= x < 2 * unit && s * TWO31 <= x * k + TWO31 - 1
    ensures unit * (s - 2) < x * TWO32
  {
    ConstantsFit(unit, k, d);
    assert unit * (x * k) == x * (k * unit) == x * TWO63 + x * d;
    ProductGrows(x, d, 2 * unit, d);
    NotNegative(unit, TWO31 - 2 * d);
    assert unit * (TWO31 - 2 * d) == unit * TWO31 - 2 * unit * d;
    UnitTimes(unit, x * k, s);
    assert unit * (s - 2) == unit * s - 2 * unit;
  }

  lemma UnitTimes(unit: int, y: int, s: int)
    requires unit >= 0 && s * TWO31 <= y + TWO31 - 1
    ensures (unit * s) * TWO31 <= unit * y + unit * TWO31 - unit
  {
    NotNegative(unit, y + TWO31 - 1 - s * TWO31);
    assert unit * (y + TWO31 - 1 - s * TWO31) == unit * y + unit * TWO31 - unit - unit * (s * TWO31);
    assert unit * (s * TWO31) == (unit * s) * TWO31;
  }

  /** The promise of the smallest possible number fails for 1953125 ns, which are 2^23 binary units exactly. */
  lemma NotAlwaysSmallest()
    ensures NsToSbt(1953125) == 8388609 && 1953125 * TWO32 == 1_000_000_000 * 8388608
    ensures SbtToNs(8388608) == 1953125
  {
  }

  // ----- timespec and timeval

  datatype Timespec = Timespec(sec: I64, nsec: I32)
  datatype Timeval = Timeval(sec: I64, usec: I32)

  function TsToSbt(ts: Timespec): I64 { Signed64(Signed64(ts.sec * TWO32) + NsToSbt(ts.nsec)) }
  function SbtToTs(sbt: I64): Timespec { Timespec(sbt / TWO32, Signed32(SbtToNs(sbt % TWO32))) }
  function TvToSbt(tv: Timeval): I64 { Signed64(Signed64(tv.sec * TWO32) + UsToSbt(tv.usec)) }
  function SbtToTv(sbt: I64): Timeval { Timeval(sbt / TWO32, Signed32(SbtToUs(sbt % TWO32))) }

  /** The time in nanoseconds, and in microseconds. */
  function Nanoseconds(ts: Timespec): int { ts.sec * 1_000_000_000 + ts.nsec }
  function Microseconds(tv: Timeval): int { tv.sec * 1_000_000 + tv.usec }

  /** From binary time both are rounded down, for every number. */
  lemma SpecsRoundedDown(sbt: I64)
    ensures Lasts(Nanoseconds(SbtToTs(sbt)), 1_000_000_000, sbt) && 0 <= SbtToTs(sbt).nsec < 1_000_000_000
    ensures Lasts(Microseconds(SbtToTv(sbt)), 1_000_000, sbt) && 0 <= SbtToTv(sbt).usec < 1_000_000
  {
    NanosRoundedDown(sbt / TWO32, sbt % TWO32, sbt);
    MicrosRoundedDown(sbt / TWO32, sbt % TWO32, sbt);
  }

  lemma NanosRoundedDown(sec: int, f: int, sbt: I64)
    requires sec == sbt / TWO32 && f == sbt % TWO32
    ensures Lasts(Nanoseconds(SbtToTs(sbt)), 1_000_000_000, sbt) && 0 <= SbtToTs(sbt).nsec < 1_000_000_000
  {
    SmallNs(f);
    SplitSeconds(sec, f, 1_000_000_000, 1_000_000_000 * f / TWO32);
    assert sbt == sec * TWO32 + f;
  }

  lemma MicrosRoundedDown(sec: int, f: int, sbt: I64)
    requires sec == sbt / TWO32 && f == sbt % TWO32
    ensures Lasts(Microseconds(SbtToTv(sbt)), 1_000_000, sbt) && 0 <= SbtToTv(sbt).usec < 1_000_000
  {
    Signed64Exact(1_000_000 * f);
    SplitSeconds(sec, f, 1_000_000, 1_000_000 * f / TWO32);
    assert sbt == sec * TWO32 + f;
  }

  lemma SplitSeconds(sec: int, f: int, unit: int, low: int)
    requires 0 < unit && 0 <= f < TWO32 && low == unit * f / TWO32
    ensures Lasts(sec * unit + low, unit, sec * TWO32 + f) && 0 <= low < unit
  {
    ProductGrows(unit, f, unit, TWO32 - 1);
    BelowFactor(unit * f, TWO32, unit);
    assert unit * (sec * TWO32 + f) == (sec * unit) * TWO32 + unit * f;
  }

  /** To binary time both are rounded up, and last as long as they say. */
  lemma SpecsLast(ts: Timespec, tv: Timeval)
    requires -TWO31 <= ts.sec < TWO31 && 0 <= ts.nsec < 1_000_000_000
    requires -TWO31 <= tv.sec < TWO31 && 0 <= tv.usec < 1_000_000
    ensures Lasts(Nanoseconds(ts), 1_000_000_000, TsToSbt(ts)) && Lasts(Microseconds(tv), 1_000_000, TvToSbt(tv))
  {
    TimespecRoundTrip(ts);
    TimevalRoundTrip(tv);
    SpecsRoundedDown(TsToSbt(ts));
    SpecsRoundedDown(TvToSbt(tv));
  }

  /** A struct timespec with a 32-bit second survives the way there and back. */
  lemma TimespecRoundTrip(ts: Timespec)
    requires -TWO31 <= ts.sec < TWO31 && 0 <= ts.nsec < 1_000_000_000
    ensures SbtToTs(TsToSbt(ts)) == ts
  {
    var f := Scaled(ts.nsec, 9223372037);
    ScaledBack(ts.nsec, 1_000_000_000, 9223372037, 145224192);
    SmallNs(f);
    Joint(ts.sec, f);
  }

  lemma TimevalRoundTrip(tv: Timeval)
    requires -TWO31 <= tv.sec < TWO31 && 0 <= tv.usec < 1_000_000
    ensures SbtToTv(TvToSbt(tv)) == tv
  {
    var f := Scaled(tv.usec, 9223372036855);
    ScaledBack(tv.usec, 1_000_000, 9223372036855, 224192);
    Signed64Exact(f);
    Signed64Exact(1_000_000 * f);
    Joint(tv.sec, f);
  }

  /** Seconds above, fraction below bit 32. */
  lemma Joint(sec: int, f: int)
    requires -TWO31 <= sec < TWO31 && 0 <= f < TWO32
    ensures Signed64(Signed64(sec * TWO32) + f) == sec * TWO32 + f
    ensures (sec * TWO32 + f) / TWO32 == sec && (sec * TWO32 + f) % TWO32 == f
  {
    Signed64Exact(sec * TWO32);
    Signed64Exact(sec * TWO32 + f);
    DivModIs(sec * TWO32 + f, TWO32, sec, f);
  }
}
