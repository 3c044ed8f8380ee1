/** What rounding an integer to a float does to its order against floats, and when a double is a float. */
module FloatRounding {
  import opened Basics
  import opened Bytes
  import opened Floats

  /** The number 1 in the units of binary32 and of binary64 values. */
  const UNIT32: nat := Pow2(149)
  const UNIT64: nat := Pow2(1074)

  // ---------------------------------------------------------------------------------------------
  // Magnitudes, for any precision `p` and bias.

  lemma Regroup(n: nat, a: nat, b: nat, c: nat)
    requires c == a * b
    ensures (n * a) * b == n * c
  {
    MulAssoc(n, a, b);
  }

  lemma ShortMag(n: nat, p: nat, bias: nat)
    requires bias >= 1 && BitLen(n) <= p + 1
    ensures RoundedMag(n, p, bias) == n * Pow2(p + bias - 1)
  {
    hide Pow2, BitLen;
    var l := BitLen(n);
    if n > 0 {
      Pow2Sum(p + 1 - l, l + bias - 2);
      Regroup(n, Pow2(p + 1 - l), Pow2(l + bias - 2), Pow2(p + bias - 1));
    }
  }

  lemma NoBits()
    ensures BitLen(0) == 0
  {
  }

  lemma LongMag(n: nat, p: nat, bias: nat)
    requires bias >= 1 && BitLen(n) > p + 1
    ensures var s := BitLen(n) - p - 1;
      RoundedMag(n, p, bias) == RoundShift(n, s) * Pow2(s + (p + bias - 1))
    ensures RoundShift(n, BitLen(n) - p - 1) >= Pow2(p)
  {
    hide Pow2, RoundShift, BitLen;
    NoBits();
    SignificandLarge(n, BitLen(n), p);
  }

  /** The rounded magnitude is exact on short integers, and in any case that of an integer. */
  lemma RoundedIsInteger(n: nat, p: nat, bias: nat) returns (k: nat)
    requires bias >= 1
    ensures RoundedMag(n, p, bias) == k * Pow2(p + bias - 1)
    ensures BitLen(n) <= p + 1 ==> k == n
  {
    hide Pow2, RoundedMag, BitLen, RoundShift;
    if BitLen(n) <= p + 1 {
      k := n;
      ShortMag(n, p, bias);
    } else {
      var s := BitLen(n) - p - 1;
      LongMag(n, p, bias);
      k := RoundShift(n, s) * Pow2(s);
      Pow2Sum(s, p + bias - 1);
      Regroup(RoundShift(n, s), Pow2(s), Pow2(p + bias - 1), Pow2(s + (p + bias - 1)));
    }
  }

  /** A float whose exponent field is small is less than 2^(p + w), in units. */
  lemma SmallScaled(e: nat, f: nat, p: nat, w: nat)
    requires f < Pow2(p) && e <= w
    ensures Scaled(e, f, Pow2(p)) < Pow2(p + w)
  {
    hide Pow2;
    if e == 0 {
      Pow2Monotone(p, p + w);
    } else {
      MulStrict(Pow2(p) + f, 2 * Pow2(p), Pow2(e - 1));
      Double(Pow2(p), e);
      Pow2Sum(p, e);
      Pow2Monotone(p + e, p + w);
    }
  }

  /** A float of at least 2^(p + w), in units, is a multiple of 2^w. */
  lemma LargeIsMultiple(e: nat, f: nat, p: nat, w: nat) returns (m: nat)
    requires f < Pow2(p) && Scaled(e, f, Pow2(p)) >= Pow2(p + w)
    ensures Scaled(e, f, Pow2(p)) == m * Pow2(w)
  {
    hide Pow2;
    if e <= w {
      SmallScaled(e, f, p, w);
      assert false;
    } else {
      m := (Pow2(p) + f) * Pow2(e - 1 - w);
      Pow2Sum(e - 1 - w, w);
      Regroup(Pow2(p) + f, Pow2(e - 1 - w), Pow2(w), Pow2(e - 1));
    }
  }

  lemma Quotient(n: nat, d: nat, m: nat)
    requires d > 0
    ensures n <= m * d ==> n / d < m || (n / d == m && n % d == 0)
    ensures n >= m * d ==> n / d >= m
  {
    var q, rest := n / d, n % d;
    assert n == q * d + rest;
    if n <= m * d {
      if q > m { MulLe(m + 1, q, d); }
    }
    if n >= m * d && q < m {
      MulLe(q + 1, m, d);
    }
  }

  /** Rounding `n / 2^s` never passes an integer. */
  lemma RoundShiftStops(n: nat, s: nat, m: nat)
    ensures n <= m * Pow2(s) ==> RoundShift(n, s) <= m
    ensures n >= m * Pow2(s) ==> RoundShift(n, s) >= m
  {
    hide Pow2;
    Quotient(n, Pow2(s), m);
  }

  /** Rounding an integer never passes a float: if it lies on one side of the float, so does the rounded one. */
  lemma RoundedMagStops(n: nat, e: nat, f: nat, p: nat, bias: nat)
    requires bias >= 1 && f < Pow2(p)
    ensures var x := Scaled(e, f, Pow2(p));
      && (n * Pow2(p + bias - 1) <= x ==> RoundedMag(n, p, bias) <= x)
      && (n * Pow2(p + bias - 1) >= x ==> RoundedMag(n, p, bias) >= x)
  {
    hide Pow2, RoundedMag, RoundShift, Scaled, BitLen;
    if BitLen(n) <= p + 1 {
      ShortMag(n, p, bias);
    } else {
      LongMag(n, p, bias);
      var s, x, unit := BitLen(n) - p - 1, Scaled(e, f, Pow2(p)), Pow2(p + bias - 1);
      var w := s + (p + bias - 1);
      if x >= Pow2(p + w) {
        var m := LargeIsMultiple(e, f, p, w);
        Pow2Sum(s, p + bias - 1);
        Regroup(m, Pow2(s), unit, Pow2(w));
        Cancel(n, m * Pow2(s), unit);
        Cancel(m * Pow2(s), n, unit);
        RoundShiftStops(n, s, m);
        Cancel(RoundShift(n, s), m, Pow2(w));
        Cancel(m, RoundShift(n, s), Pow2(w));
      } else {
        AtLeastBinade(n, p, bias);
        Pow2Sum(p, w);
        MulLe(Pow2(p), RoundShift(n, s), Pow2(w));
      }
    }
  }

  lemma AtLeastBinade(n: nat, p: nat, bias: nat)
    requires bias >= 1 && BitLen(n) > p + 1
    ensures n * Pow2(p + bias - 1) >= Pow2(BitLen(n) - 1 + (p + bias - 1))
  {
    hide Pow2, BitLen;
    NoBits();
    Pow2Sum(BitLen(n) - 1, p + bias - 1);
    MulLe(Pow2(BitLen(n) - 1), n, Pow2(p + bias - 1));
  }

  lemma Cancel(a: int, b: int, c: nat)
    requires c > 0
    ensures a * c <= b * c <==> a <= b
  {
    if a > b { MulStrict(b, a, c); }
    if a <= b { MulLe(a, b, c); }
  }

  // ---------------------------------------------------------------------------------------------
  // Signed numbers.

  lemma Units()
    ensures P32 == Pow2(23) && P64 == Pow2(52) && UNIT32 > 0 && UNIT64 > 0
  {
    Pow2Values();
  }

  lemma Fields32(mag: nat)
    requires mag < SIGN32
    ensures Mag32(mag) == Scaled(mag / P32, mag % P32, Pow2(23)) && mag % P32 < Pow2(23)
  {
    Units();
  }

  lemma Fields64(mag: nat)
    requires mag < SIGN64
    ensures Mag64(mag) == Scaled(mag / P64, mag % P64, Pow2(52)) && mag % P64 < Pow2(52)
  {
    Units();
  }

  lemma NegUnit(n: int, u: nat)
    ensures (0 - n) * u == 0 - n * u
  {
  }

  lemma MulSign(n: int, u: nat)
    requires u > 0
    ensures n > 0 ==> n * u > 0
    ensures n < 0 ==> n * u < 0
    ensures n == 0 ==> n * u == 0
  {
  }

  /** The two signed comparisons, from the comparison of magnitudes: `r` is what `n` units round to, `v` a float. */
  lemma SignedStops(n: int, a: nat, u: nat, r: nat, negative: bool, x: nat)
    requires u > 0 && a == (if n < 0 then 0 - n else n) && (a == 0 ==> r == 0)
    requires (a * u <= x ==> r <= x) && (a * u >= x ==> r >= x)
    ensures var (v, rounded) := (if negative then 0 - x else x as int, if n < 0 then 0 - r else r as int);
      (n * u <= v ==> rounded <= v) && (n * u >= v ==> rounded >= v)
  {
    NegUnit(a, u);
    MulSign(n, u);
  }

  lemma RoundedZero(p: nat, bias: nat)
    requires bias >= 1
    ensures RoundedMag(0, p, bias) == 0
  {
  }

  /** An integer below a binary32 number is not rounded above it, nor the other way round. */
  lemma RoundStops32(n: i64, y: f32)
    ensures n * UNIT32 <= Value32(y) ==> Value32(IntToF32(n)) <= Value32(y)
    ensures n * UNIT32 >= Value32(y) ==> Value32(IntToF32(n)) >= Value32(y)
  {
    hide Scaled, RoundedMag, Mag32, Mag64, Pow2, IntToF32, IntToF64;
    var mag := if y < SIGN32 then y else y - SIGN32;
    Fields32(mag);
    IntValue(n);
    RoundedZero(23, 127);
    RoundedMagStops(Abs(n), mag / P32, mag % P32, 23, 127);
    SignedStops(n, Abs(n), UNIT32, RoundedMag(Abs(n), 23, 127), y >= SIGN32, Mag32(mag));
  }

  lemma RoundStops64(n: i64, y: f64)
    ensures n * UNIT64 <= Value64(y) ==> Value64(IntToF64(n)) <= Value64(y)
    ensures n * UNIT64 >= Value64(y) ==> Value64(IntToF64(n)) >= Value64(y)
  {
    hide Scaled, RoundedMag, Mag32, Mag64, Pow2, IntToF32, IntToF64;
    var mag := if y < SIGN64 then y else y - SIGN64;
    Fields64(mag);
    IntValue(n);
    RoundedZero(52, 1023);
    RoundedMagStops(Abs(n), mag / P64, mag % P64, 52, 1023);
    SignedStops(n, Abs(n), UNIT64, RoundedMag(Abs(n), 52, 1023), y >= SIGN64, Mag64(mag));
  }

  // ---------------------------------------------------------------------------------------------
  // Nearest.

  function Distance(a: int, b: int): nat {
    if a < b then b - a else a - b
  }

  /** No multiple of 2^s is nearer to `n` than the one that `n` is rounded to, and of two equally near it is the even one. */
  lemma RoundShiftNearest(n: nat, s: nat, m: nat)
    ensures Distance(RoundShift(n, s) * Pow2(s), n) <= Distance(m * Pow2(s), n)
    ensures Distance(m * Pow2(s), n) == Distance(RoundShift(n, s) * Pow2(s), n) && m != RoundShift(n, s) ==> RoundShift(n, s) % 2 == 0
  {
    hide Pow2, Distance;
    var d, q, rest := Pow2(s), n / Pow2(s), n % Pow2(s);
    assert n == q * d + rest;
    assert (q + 1) * d == q * d + d;
    Between(n, d, q, rest);
    if m < q {
      Below(n, d, q, rest, m);
    } else if m > q + 1 {
      Above(n, d, q, rest, m);
    }
  }

  lemma Between(n: nat, d: nat, q: nat, rest: nat)
    requires n == q * d + rest && rest < d
    ensures Distance(q * d, n) == rest && Distance((q + 1) * d, n) == d - rest
  {
    assert (q + 1) * d == q * d + d;
  }

  lemma Below(n: nat, d: nat, q: nat, rest: nat, m: nat)
    requires n == q * d + rest && rest < d && m < q
    ensures Distance(m * d, n) >= d + rest
  {
    MulLe(m + 1, q, d);
    assert (m + 1) * d == m * d + d;
  }

  lemma Above(n: nat, d: nat, q: nat, rest: nat, m: nat)
    requires n == q * d + rest && rest < d && m > q + 1
    ensures Distance(m * d, n) >= 2 * d - rest
  {
    MulLe(q + 2, m, d);
    assert (q + 2) * d == q * d + 2 * d;
  }

  lemma ScaledDistance(a: int, b: int, u: nat)
    ensures Distance(a * u, b * u) == Distance(a, b) * u
  {
    assert (a - b) * u == a * u - b * u && (b - a) * u == b * u - a * u;
    if a < b { MulLe(a, b, u); } else { MulLe(b, a, u); }
  }

  lemma RoundedMagNearest(n: nat, e: nat, f: nat, p: nat, bias: nat)
    requires bias >= 1 && f < Pow2(p)
    ensures var nu := n * Pow2(p + bias - 1);
      Distance(RoundedMag(n, p, bias), nu) <= Distance(Scaled(e, f, Pow2(p)), nu) && Distance(RoundedMag(n, p, bias), nu) <= nu
  {
    hide Pow2, RoundedMag, RoundShift, Scaled, BitLen;
    var unit, x := Pow2(p + bias - 1), Scaled(e, f, Pow2(p));
    if BitLen(n) <= p + 1 {
      ShortMag(n, p, bias);
    } else {
      LongMag(n, p, bias);
      var s := BitLen(n) - p - 1;
      var w := s + (p + bias - 1);
      NearestMultiple(n, s, unit, w, p + bias - 1, 0);
      if x >= Pow2(p + w) {
        var m := LargeIsMultiple(e, f, p, w);
        NearestMultiple(n, s, unit, w, p + bias - 1, m);
      } else {
        AtLeastBinade(n, p, bias);
        Pow2Sum(p, w);
        NearestMultiple(n, s, unit, w, p + bias - 1, Pow2(p));
      }
    }
  }

  lemma NearestMultiple(n: nat, s: nat, unit: nat, w: nat, k: nat, m: nat)
    requires unit == Pow2(k) && w == s + k
    ensures Distance(RoundShift(n, s) * Pow2(w), n * unit) <= Distance(m * Pow2(w), n * unit)
  {
    hide Pow2, RoundShift;
    var r := RoundShift(n, s);
    Pow2Sum(s, k);
    Regroup(r, Pow2(s), unit, Pow2(w));
    Regroup(m, Pow2(s), unit, Pow2(w));
    RoundShiftNearest(n, s, m);
    ScaledDistance(r * Pow2(s), n, unit);
    ScaledDistance(m * Pow2(s), n, unit);
    MulLe(Distance(r * Pow2(s), n), Distance(m * Pow2(s), n), unit);
  }

  /** `r` units round `n` units, no magnitude `x` being nearer; then with the signs no number is nearer either. */
  lemma SignedNearest(n: int, a: nat, u: nat, r: nat, negative: bool, x: nat)
    requires a == (if n < 0 then 0 - n else n) && Distance(r, a * u) <= Distance(x, a * u) && Distance(r, a * u) <= a * u
    ensures var (v, rounded) := (if negative then 0 - x else x as int, if n < 0 then 0 - r else r as int);
      Distance(rounded, n * u) <= Distance(v, n * u)
  {
    NegUnit(a, u);
  }

  /** An integer becomes the nearest binary32 number: no other is nearer. */
  lemma RoundsToNearest32(n: i64, y: f32)
    ensures Distance(Value32(IntToF32(n)), n * UNIT32) <= Distance(Value32(y), n * UNIT32)
  {
    hide Scaled, RoundedMag, Mag32, Mag64, Pow2, IntToF32, IntToF64;
    var mag := if y < SIGN32 then y else y - SIGN32;
    Fields32(mag);
    IntValue(n);
    RoundedMagNearest(Abs(n), mag / P32, mag % P32, 23, 127);
    SignedNearest(n, Abs(n), UNIT32, RoundedMag(Abs(n), 23, 127), y >= SIGN32, Mag32(mag));
  }

  /** And the nearest binary64 number. */
  lemma RoundsToNearest64(n: i64, y: f64)
    ensures Distance(Value64(IntToF64(n)), n * UNIT64) <= Distance(Value64(y), n * UNIT64)
  {
    hide Scaled, RoundedMag, Mag32, Mag64, Pow2, IntToF32, IntToF64;
    var mag := if y < SIGN64 then y else y - SIGN64;
    Fields64(mag);
    IntValue(n);
    RoundedMagNearest(Abs(n), mag / P64, mag % P64, 52, 1023);
    SignedNearest(n, Abs(n), UNIT64, RoundedMag(Abs(n), 52, 1023), y >= SIGN64, Mag64(mag));
  }

  /** A rounded integer is an integer. */
  lemma RoundedInteger64(n: i64) returns (k: int)
    ensures Value64(IntToF64(n)) == k * UNIT64
  {
    hide RoundedMag, Pow2, IntToF32, IntToF64, Value32, Value64, BitLen;
    IntValue(n);
    k := RoundedIsInteger(Abs(n), 52, 1023);
    NegUnit(k, UNIT64);
    if n < 0 {
      k := 0 - k;
    }
  }

  lemma BitLenAtMost(n: nat, l: nat)
    requires n < Pow2(l)
    ensures BitLen(n) <= l
  {
    if n > 0 && BitLen(n) > l {
      Pow2Monotone(l, BitLen(n) - 1);
    }
  }

  /** INT2 values are exact in binary32, INT2 and INT4 values in binary64. */
  lemma ShortIsExact32(n: i16)
    ensures Value32(IntToF32(n)) == n * UNIT32
  {
    Pow2Values();
    hide RoundedMag, Pow2, IntToF32, IntToF64, Value32, Value64, BitLen;
    BitLenAtMost(Abs(n), 23);
    IntValue(n);
    ShortMag(Abs(n), 23, 127);
    NegUnit(Abs(n), UNIT32);
  }

  lemma IntIsExact64(n: int)
    requires -0x8000_0000 <= n <= 0x8000_0000
    ensures Value64(IntToF64(n)) == n * UNIT64
  {
    Pow2Values();
    hide RoundedMag, Pow2, IntToF32, IntToF64, Value32, Value64, BitLen;
    BitLenAtMost(Abs(n), 52);
    IntValue(n);
    ShortMag(Abs(n), 52, 1023);
    NegUnit(Abs(n), UNIT64);
  }

  // ---------------------------------------------------------------------------------------------
  // Integers and widened floats side by side.

  lemma SameUnits()
    ensures UNIT64 == UNIT32 * Pow2(925)
  {
    Pow2Sum(149, 925);
  }

  lemma FiniteSide(n: int, v: int, u: nat, k: nat)
    requires k > 0
    ensures CompareInt(n * (u * k), v * k) == CompareInt(n * u, v)
  {
    assert n * (u * k) == (n * u) * k;
    if n * u < v { MulStrict(n * u, v, k); }
    if n * u > v { MulStrict(v, n * u, k); }
  }

  lemma ScaledInfinity(e: nat, p: nat)
    requires e > 0
    ensures Scaled(e, 0, p) == p * Pow2(e - 1)
  {
  }

  lemma InfinityIsLarge(n: int)
    requires -0x8000_0000 <= n <= 0x8000_0000
    ensures Value32(INF32) > 0 - n * UNIT32 && Value32(INF32) > n * UNIT32
    ensures Value64(INF64) > 0 - n * UNIT64 && Value64(INF64) > n * UNIT64
  {
    hide Pow2, Scaled;
    ScaledInfinity(255, P32);
    ScaledInfinity(2047, P64);
    LargeProduct(n, P64, UNIT32, P32, 149, 105);
    LargeProduct(n, P64, UNIT64, P64, 1074, 972);
  }

  /** With `k >= 52`, the product of a 32-bit integer and 2^j is smaller than that of `c > 1` and 2^(j + k). */
  lemma LargeProduct(n: int, bound: nat, u: nat, c: nat, j: nat, k: nat)
    requires 0 - bound <= n <= bound && bound == P64 && u == Pow2(j) && c > 1 && k >= 52
    ensures c * Pow2(j + k) > n * u && c * Pow2(j + k) > 0 - n * u
  {
    Pow2Values();
    hide Pow2;
    MulLe(n, bound, u);
    MulLe(0 - bound, n, u);
    NegUnit(bound, u);
    Pow2Sum(j, k);
    Pow2Monotone(52, k);
    MulLe(bound, Pow2(k), u);
    MulStrict(1, c, Pow2(j + k));
  }

  /** An integer of 32 bits lies to the widened float as it lies to the float. */
  lemma CompareWidened(n: int, y: f32)
    requires -0x8000_0000 <= n <= 0x8000_0000 && !IsNaN32(y)
    ensures CompareInt(n * UNIT64, Value64(Widen(y))) == CompareInt(n * UNIT32, Value32(y))
  {
    hide Pow2, Mag32, Mag64, WidenMag;
    if y % SIGN32 < INF32 {
      WidenExact(y);
      SameUnits();
      FiniteSide(n, Value32(y), UNIT32, Pow2(925));
    } else {
      InfinityIsLarge(n);
      WidenInfinity(y);
    }
  }

  lemma WidenInfinity(y: f32)
    requires y % SIGN32 == INF32
    ensures Value32(y) == if y < SIGN32 then Value32(INF32) else 0 - Value32(INF32)
    ensures Value64(Widen(y)) == if y < SIGN32 then Value64(INF64) else 0 - Value64(INF64)
  {
    hide Mag32, Mag64, WidenMag;
    assert y == if y < SIGN32 then INF32 else SIGN32 + INF32;
  }

  // ---------------------------------------------------------------------------------------------
  // Doubles that are floats.

  function Over(n: nat, d: nat): (q: nat)
    requires d > 0
  {
    n / d
  }

  function Shifted(f: nat, k: nat): (r: nat)
    requires f < P64 && 30 <= k
    ensures r < P32
  {
    NarrowSubnormal(f, k);
    Over(P64 + f, Pow2(k))
  }

  /** The cast back to binary32, as far as it is exact. */
  function NarrowMag(mag: nat): (r: nat)
    requires mag < SIGN64
    ensures r <= INF32
  {
    var e, f := mag / P64, mag % P64;
    if e >= 1151 then INF32
    else if e >= 897 then (e - 896) * P32 + f / 0x2000_0000
    else if e >= 874 then Shifted(f, 926 - e)
    else 0
  }

  lemma NarrowSubnormal(f: nat, k: nat)
    requires f < P64 && 30 <= k
    ensures Over(P64 + f, Pow2(k)) < P32
  {
    Pow2Values();
    hide Pow2;
    Pow2Sum(23, 30);
    Pow2Sum(1, 52);
    Pow2Monotone(30, k);
    TwoPowOne();
    MulLe(Pow2(30), Pow2(k), P32);
    DivBounds(P64 + f, Pow2(k), 0, P32);
  }

  lemma TwoPowOne()
    ensures Pow2(1) == 2
  {
    assert Pow2(0) == 1;
  }

  function Narrow(z: f64): (r: f32) {
    if z < SIGN64 then NarrowMag(z) else SIGN32 + NarrowMag(z - SIGN64)
  }

  /** The double denotes a binary32 number: casting it down and up again changes nothing. */
  predicate NarrowsExactly(z: f64) {
    Value64(Widen(Narrow(z))) == Value64(z)
  }

  lemma NarrowOfWiden(m: nat)
    requires m <= INF32
    ensures NarrowMag(WidenMag(m)) == m
  {
    hide Pow2, Shifted, NarrowMag;
    var e, f := m / P32, m % P32;
    if e == 255 {
      NarrowInfinite();
    } else if e > 0 {
      NarrowNormal(e, f);
    } else if f > 0 {
      NarrowSmall(f);
    } else {
      NarrowZero();
    }
  }

  lemma NarrowInfinite()
    ensures NarrowMag(2047 * P64) == INF32
  {
    hide Shifted;
  }

  lemma NarrowZero()
    ensures NarrowMag(0) == 0
  {
    hide Shifted;
  }

  lemma NarrowNormal(e: nat, f: nat)
    requires 0 < e < 255 && f < P32
    ensures NarrowMag((e + 896) * P64 + f * 0x2000_0000) == e * P32 + f
  {
    hide Shifted;
    FieldsOf(e + 896, f * 0x2000_0000);
  }

  lemma NarrowSmall(f: nat)
    requires 0 < f < P32
    ensures var k := Shift(f);
      NarrowMag((897 - k) * P64 + (f * Pow2(k) - P32) * 0x2000_0000) == f
  {
    var k := Shift(f);
    assert k > 0 by { assert Pow2(0) == 1; }
    hide Pow2, Shift;
    FieldsOf(897 - k, (f * Pow2(k) - P32) * 0x2000_0000);
    UnShift(f, k);
  }

  /** Casting up and down again changes nothing. */
  lemma NarrowWidened(x: f32)
    requires !IsNaN32(x)
    ensures Narrow(Widen(x)) == x
  {
    hide WidenMag, NarrowMag;
    NarrowOfWiden(x % SIGN32);
    assert x == if x < SIGN32 then x % SIGN32 else SIGN32 + x % SIGN32;
  }

  lemma UnShift(f: nat, k: nat)
    requires f * Pow2(k) >= P32
    ensures (P64 + (f * Pow2(k) - P32) * 0x2000_0000) / Pow2(29 + k) == f
  {
    Pow2Values();
    hide Pow2;
    Pow2Sum(29, k);
    assert P64 + (f * Pow2(k) - P32) * 0x2000_0000 == (f * Pow2(k)) * 0x2000_0000;
    assert (f * Pow2(k)) * Pow2(29) == f * (Pow2(k) * Pow2(29));
    DivExact(f, Pow2(29 + k));
  }

  lemma DivExact(f: nat, d: nat)
    requires d > 0
    ensures (f * d) / d == f
  {
    Quotient(f * d, d, f);
  }

  lemma MagInjective(x: nat, y: nat)
    requires Mag64(x) == Mag64(y)
    ensures x == y
  {
    if x < y { MagMonotone(x, y); }
    if y < x { MagMonotone(y, x); }
  }

  /** Some float widens to the number that the double denotes exactly when the double's own cast does. */
  lemma NarrowsWhenFloat(z: f64, y: f32)
    requires !IsNaN32(y) && Value64(Widen(y)) == Value64(z)
    ensures NarrowsExactly(z)
  {
    hide Mag32, Mag64, WidenMag, NarrowMag;
    var m, x := y % SIGN32, z % SIGN64;
    Zeros();
    Signs(z, y);
    if Mag64(x) == 0 {
      MagInjective(x, 0);
    } else {
      MagInjective(x, WidenMag(m));
      NarrowOfWiden(m);
    }
  }

  lemma Zeros()
    ensures Mag64(0) == 0 && WidenMag(0) == 0 && NarrowMag(0) == 0
  {
  }

  lemma Signs(z: f64, y: f32)
    ensures var m := Mag64(z % SIGN64) as int; Value64(z) == if z < SIGN64 then m else -m
    ensures var m := Mag64(WidenMag(y % SIGN32)) as int; Value64(Widen(y)) == if y < SIGN32 then m else -m
    ensures Narrow(z) % SIGN32 == NarrowMag(z % SIGN64) && (Narrow(z) < SIGN32 <==> z < SIGN64)
    ensures var m := Mag64(WidenMag(NarrowMag(z % SIGN64))) as int; Value64(Widen(Narrow(z))) == if z < SIGN64 then m else -m
  {
    hide Mag32, Mag64, WidenMag, NarrowMag;
    assert z % SIGN64 == if z < SIGN64 then z else z - SIGN64;
    SignAndMagnitude(y);
    SignAndMagnitude(Narrow(z));
  }

  lemma NarrowNumber(z: f64)
    ensures !IsNaN32(Narrow(z))
  {
    hide NarrowMag;
  }
}
