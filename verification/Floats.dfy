/**
 * IEEE 754 binary32 and binary64 numbers as bit patterns. A finite number or an infinity is given an
 * exact integer value (its magnitude in units of the smallest subnormal), and `partial_cmp` compares
 * those values. Conversions from integers round half to even, as section 4.3.1 of IEEE 754-2019 says.
 */
module Floats {
  import opened Bytes

  type f32 = b: int | 0 <= b < 0x1_0000_0000
  type f64 = b: int | 0 <= b < 0x1_0000_0000_0000_0000

  const SIGN32: int := 0x8000_0000
  const SIGN64: int := 0x8000_0000_0000_0000
  const INF32: int := 0x7F80_0000
  const INF64: int := 0x7FF0_0000_0000_0000

  function Pow2(n: nat): (r: nat)
    ensures r > 0
  {
    if n == 0 then 1 else 2 * Pow2(n - 1)
  }

  lemma {:induction false} Pow2Sum(a: nat, b: nat)
    ensures Pow2(a + b) == Pow2(a) * Pow2(b)
    decreases a
  {
    if a > 0 {
      Pow2Sum(a - 1, b);
      assert Pow2(a + b) == 2 * Pow2(a - 1 + b);
    }
  }

  lemma {:induction false} Pow2Monotone(a: nat, b: nat)
    requires a <= b
    ensures Pow2(a) <= Pow2(b)
    decreases b
  {
    if a < b {
      Pow2Monotone(a, b - 1);
    }
  }

  // ---------------------------------------------------------------------------------------------
  // Values.

  const P32: int := 0x80_0000
  const P64: int := 0x10_0000_0000_0000

  /** The magnitude denoted by exponent field `e` and fraction `f`, the hidden bit being worth `p`. */
  function Scaled(e: nat, f: nat, p: nat): (m: nat) {
    if e == 0 then f else (p + f) * Pow2(e - 1)
  }

  function Mag32(mag: nat): nat {
    Scaled(mag / P32, mag % P32, P32)
  }

  function Mag64(mag: nat): nat {
    Scaled(mag / P64, mag % P64, P64)
  }

  predicate IsNaN32(b: f32) {
    b % SIGN32 > INF32
  }

  predicate IsNaN64(b: f64) {
    b % SIGN64 > INF64
  }

  /** The number a pattern denotes, in units of 2^-149; the two zeros coincide. */
  function Value32(b: f32): int {
    if b < SIGN32 then Mag32(b) else -(Mag32(b - SIGN32) as int)
  }

  /** The number a pattern denotes, in units of 2^-1074; the two zeros coincide. */
  function Value64(b: f64): int {
    if b < SIGN64 then Mag64(b) else -(Mag64(b - SIGN64) as int)
  }

  lemma ScaledMonotone(e: nat, f: nat, e': nat, f': nat, p: nat)
    requires f < p && f' < p
    requires e < e' || (e == e' && f < f')
    ensures Scaled(e, f, p) < Scaled(e', f', p)
  {
    if e == e' {
      if e > 0 {
        MulStrict(p + f, p + f', Pow2(e - 1));
      }
    } else {
      MulLe(p, p + f', Pow2(e' - 1));
      if e == 0 {
        MulLe(1, Pow2(e' - 1), p);
      } else {
        MulStrict(p + f, 2 * p, Pow2(e - 1));
        Double(p, e);
        Pow2Monotone(e, e' - 1);
        MulLe(Pow2(e), Pow2(e' - 1), p);
      }
    }
  }

  /** Magnitude bits order numbers of one sign. */
  lemma MagMonotone(x: nat, y: nat)
    requires x < y
    ensures Mag32(x) < Mag32(y) && Mag64(x) < Mag64(y)
  {
    ScaledMonotone(x / P32, x % P32, y / P32, y % P32, P32);
    ScaledMonotone(x / P64, x % P64, y / P64, y % P64, P64);
  }

  lemma MulLe(a: int, b: int, c: nat)
    requires a <= b
    ensures a * c <= b * c
  {
  }

  lemma MulStrict(a: int, b: int, c: nat)
    requires a < b && c > 0
    ensures a * c < b * c
  {
  }

  lemma Double(a: int, n: nat)
    requires n > 0
    ensures 2 * a * Pow2(n - 1) == a * Pow2(n)
  {
    assert a * (2 * Pow2(n - 1)) == 2 * a * Pow2(n - 1);
  }

  // ---------------------------------------------------------------------------------------------
  // Conversions.

  /** `value as f64` for a binary32 `value`: the sign stays, the magnitude is re-biased. */
  function Widen(b: f32): (r: f64)
    ensures r < SIGN64 <==> b < SIGN32
    ensures r % SIGN64 == WidenMag(b % SIGN32)
    ensures IsNaN64(r) <==> IsNaN32(b)
  {
    WithSign64(b >= SIGN32, WidenMag(b % SIGN32))
  }

  function WithSign64(negative: bool, mag: nat): (r: f64)
    requires mag < SIGN64
    ensures r < SIGN64 <==> !negative
    ensures r % SIGN64 == mag
  {
    if negative then SIGN64 + mag else mag
  }

  /** Widening a finite number is exact. */
  lemma WidenExact(b: f32)
    requires b % SIGN32 < INF32
    ensures Value64(Widen(b)) == Value32(b) * Pow2(925)
  {
    var mag := b % SIGN32;
    WidenMagValue(mag);
    assert mag == if b < SIGN32 then b else b - SIGN32;
    assert WidenMag(mag) == if b < SIGN32 then Widen(b) else Widen(b) - SIGN64;
    NegMul(Mag32(mag), Pow2(925));
  }

  lemma NegMul(a: int, b: int)
    ensures (-a) * b == -(a * b)
  {
  }

  function WidenMag(mag: nat): (r: nat)
    requires mag < SIGN32
    ensures r < SIGN64
    ensures r > INF64 <==> mag > INF32
    ensures r == INF64 <==> mag == INF32
  {
    var e, f := mag / 0x80_0000, mag % 0x80_0000;
    if e == 255 then 2047 * 0x10_0000_0000_0000 + f * 0x2000_0000
    else if e > 0 then (e + 896) * 0x10_0000_0000_0000 + f * 0x2000_0000
    else if f == 0 then 0
    else
      var k := Shift(f);
      (897 - k) * 0x10_0000_0000_0000 + (f * Pow2(k) - 0x80_0000) * 0x2000_0000
  }

  /** How far a subnormal fraction moves left to become normal. */
  function Shift(f: nat): (k: nat)
    requires 0 < f < 0x80_0000
    ensures 0x80_0000 <= f * Pow2(k) < 0x100_0000
    ensures k <= 23
  {
    Pow2Values();
    ShiftFrom(f, 0)
  }

  function ShiftFrom(f: nat, k: nat): (r: nat)
    requires 0 < f < 0x80_0000 && k <= 23 && f * Pow2(k) < 0x100_0000
    ensures 0x80_0000 <= f * Pow2(r) < 0x100_0000
    ensures r <= 23
    decreases 23 - k
  {
    if f * Pow2(k) >= 0x80_0000 then k
    else
      Pow2Values();
      MulLe(1, f, Pow2(k));
      Double(f, k + 1);
      ShiftFrom(f, k + 1)
  }

  lemma Pow2Values()
    ensures Pow2(23) == 0x80_0000 && Pow2(29) == 0x2000_0000 && Pow2(52) == 0x10_0000_0000_0000
    ensures Pow2(63) == 0x8000_0000_0000_0000
  {
    assert Pow2(10) == 1024;
    Pow2Sum(10, 10);
    Pow2Sum(20, 3);
    Pow2Sum(20, 9);
    Pow2Sum(23, 29);
    Pow2Sum(52, 11);
  }

  lemma WidenMagValue(mag: nat)
    requires mag < INF32
    ensures Mag64(WidenMag(mag)) == Mag32(mag) * Pow2(925)
  {
    var e, f := mag / P32, mag % P32;
    if e > 0 {
      FieldsOf(e + 896, f * 0x2000_0000);
      WidenNormalValue(e, f);
    } else if f > 0 {
      var k := Shift(f);
      FieldsOf(897 - k, (f * Pow2(k) - P32) * 0x2000_0000);
      WidenSubnormalValue(f, k);
    } else {
      assert Mag64(0) == 0 && Mag32(0) == 0;
    }
  }

  lemma FieldsOf(e: nat, f: nat)
    requires f < P64
    ensures (e * P64 + f) / P64 == e && (e * P64 + f) % P64 == f
  {
  }

  lemma MulAssoc(a: int, b: int, c: int)
    ensures (a * b) * c == a * (b * c)
  {
  }

  lemma WidenNormalValue(e: nat, f: nat)
    requires 0 < e
    ensures Scaled(e + 896, f * 0x2000_0000, P64) == Scaled(e, f, P32) * Pow2(925)
  {
    Pow2Values();
    var a := P32 + f;
    MulAssoc(a, Pow2(29), Pow2(e + 895));
    MulAssoc(a, Pow2(e - 1), Pow2(925));
    Pow2Sum(29, e + 895);
    Pow2Sum(e - 1, 925);
  }

  lemma WidenSubnormalValue(f: nat, k: nat)
    requires k <= 23 && f * Pow2(k) >= P32
    ensures Scaled(897 - k, (f * Pow2(k) - P32) * 0x2000_0000, P64) == f * Pow2(925)
  {
    Pow2Values();
    var a := f * Pow2(k);
    MulAssoc(a, Pow2(29), Pow2(896 - k));
    Pow2Sum(29, 896 - k);
    MulAssoc(f, Pow2(k), Pow2(925 - k));
    Pow2Sum(k, 925 - k);
  }

  /** Widening keeps the order of all numbers, infinities included. */
  lemma WidenOrder(a: f32, b: f32)
    requires !IsNaN32(a) && !IsNaN32(b)
    ensures Value32(a) < Value32(b) <==> Value64(Widen(a)) < Value64(Widen(b))
  {
    var x, y := a % SIGN32, b % SIGN32;
    SignAndMagnitude(a);
    SignAndMagnitude(b);
    WidenMagOrder(x, y);
    WidenMagOrder(y, x);
  }

  lemma SignAndMagnitude(a: f32)
    ensures var m := Mag32(a % SIGN32) as int; Value32(a) == if a < SIGN32 then m else -m
    ensures var m := Mag64(WidenMag(a % SIGN32)) as int; Value64(Widen(a)) == if a < SIGN32 then m else -m
  {
    assert a % SIGN32 == if a < SIGN32 then a else a - SIGN32;
    assert WidenMag(a % SIGN32) == if a < SIGN32 then Widen(a) else Widen(a) - SIGN64;
  }

  lemma WidenMagOrder(x: nat, y: nat)
    requires x <= INF32 && y <= INF32
    ensures x == y ==> Mag64(WidenMag(x)) == Mag64(WidenMag(y))
    ensures x < y ==> Mag64(WidenMag(x)) < Mag64(WidenMag(y))
    ensures x < y ==> Mag32(x) < Mag32(y)
    ensures Mag32(x) == 0 <==> x == 0
    ensures Mag64(WidenMag(x)) == 0 <==> x == 0
  {
    if x < y {
      MagMonotone(x, y);
      if y == INF32 {
        MagMonotone(WidenMag(x), WidenMag(y));
      } else {
        WidenMagValue(x);
        WidenMagValue(y);
        MulStrict(Mag32(x), Mag32(y), Pow2(925));
      }
    }
    if x > 0 {
      MagMonotone(0, x);
      MagMonotone(0, WidenMag(x));
    }
  }

  // ---------------------------------------------------------------------------------------------
  // Integers to floats.

  function BitLen(n: nat): (l: nat)
    ensures n > 0 ==> l > 0 && Pow2(l - 1) <= n
    ensures n < Pow2(l)
  {
    if n == 0 then 0 else 1 + BitLen(n / 2)
  }

  /** `n / 2^s`, rounded to nearest with ties to even. */
  function RoundShift(n: nat, s: nat): (r: nat) {
    var q, rest := n / Pow2(s), n % Pow2(s);
    if 2 * rest > Pow2(s) || (2 * rest == Pow2(s) && q % 2 == 1) then q + 1 else q
  }

  /** The significand of `n > 0` rounded to a hidden bit worth 2^p; the result may carry to 2^(p+1). */
  function Significand(n: nat, p: nat): (r: nat)
    requires n > 0
    ensures Pow2(p) <= r <= Pow2(p + 1)
  {
    var l := BitLen(n);
    if l <= p + 1 then
      SignificandSmall(n, l, p);
      n * Pow2(p + 1 - l)
    else
      SignificandLarge(n, l, p);
      RoundShift(n, l - p - 1)
  }

  lemma SignificandSmall(n: nat, l: nat, p: nat)
    requires 0 < l <= p + 1 && Pow2(l - 1) <= n < Pow2(l)
    ensures Pow2(p) <= n * Pow2(p + 1 - l) <= Pow2(p + 1)
  {
    Pow2Sum(l - 1, p + 1 - l);
    Pow2Sum(l, p + 1 - l);
    MulLe(Pow2(l - 1), n, Pow2(p + 1 - l));
    MulLe(n, Pow2(l), Pow2(p + 1 - l));
  }

  lemma SignificandLarge(n: nat, l: nat, p: nat)
    requires p + 1 < l && Pow2(l - 1) <= n < Pow2(l)
    ensures Pow2(p) <= RoundShift(n, l - p - 1) <= Pow2(p + 1)
  {
    var s := l - p - 1;
    Pow2Sum(p, s);
    Pow2Sum(p + 1, s);
    DivBounds(n, Pow2(s), Pow2(p), Pow2(p + 1));
  }

  lemma DivBounds(n: nat, d: nat, lo: nat, hi: nat)
    requires d > 0 && lo * d <= n < hi * d
    ensures lo <= n / d < hi
  {
    assert n == n / d * d + n % d;
    if n / d < lo { MulLe(n / d + 1, lo, d); }
    if n / d >= hi { MulLe(hi, n / d, d); }
  }

  function Abs(n: i64): (m: nat) {
    if n < 0 then 0 - n else n
  }

  /** Magnitude bits of the nearest float; rounding up to 2^(p+1) carries into the exponent. */
  function IntBits32(m: nat): (bits: nat)
    requires m <= SIGN64
    ensures bits < INF32
  {
    if m == 0 then 0 else BitLenBound(m); Pow2Values(); (BitLen(m) + 126) * P32 + (Significand(m, 23) - P32)
  }

  function IntBits64(m: nat): (bits: nat)
    requires m <= SIGN64
    ensures bits < INF64
  {
    if m == 0 then 0 else BitLenBound(m); Pow2Values(); (BitLen(m) + 1022) * P64 + (Significand(m, 52) - P64)
  }

  /** `n as f32` for an integer of at most 64 bits. */
  function IntToF32(n: i64): (r: f32)
    ensures !IsNaN32(r)
  {
    if n < 0 then SIGN32 + IntBits32(Abs(n)) else IntBits32(n)
  }

  /** `n as f64` for an integer of at most 64 bits. */
  function IntToF64(n: i64): (r: f64)
    ensures !IsNaN64(r)
  {
    if n < 0 then SIGN64 + IntBits64(Abs(n)) else IntBits64(n)
  }

  lemma BitLenBound(n: nat)
    requires n <= SIGN64
    ensures BitLen(n) <= 64
  {
    Pow2Values();
    if BitLen(n) > 64 {
      Pow2Monotone(64, BitLen(n) - 1);
    }
  }

  /** The magnitude of the float nearest to `n`, in the units of the format with the given bias. */
  function RoundedMag(n: nat, p: nat, bias: nat): nat
    requires bias >= 1
  {
    if n == 0 then 0 else Significand(n, p) * Pow2(BitLen(n) + bias - 2)
  }

  lemma IntBitsValue(m: nat)
    requires m <= SIGN64
    ensures Mag32(IntBits32(m)) == RoundedMag(m, 23, 127)
    ensures Mag64(IntBits64(m)) == RoundedMag(m, 52, 1023)
  {
    if m != 0 {
      Pow2Values();
      CarryValue(BitLen(m) + 126, Significand(m, 23), P32);
      CarryValue(BitLen(m) + 1022, Significand(m, 52), P64);
    }
  }

  /** Rounding up to 2p moves into the next binade, where it means the same number. */
  lemma CarryValue(e: nat, sig: nat, p: nat)
    requires e > 0 && p <= sig <= 2 * p
    requires p == P32 || p == P64
    ensures var bits := e * p + (sig - p); Scaled(bits / p, bits % p, p) == sig * Pow2(e - 1)
  {
    if sig == 2 * p {
      Double(p, e);
      assert p == P32 ==> (e * P32 + P32) / P32 == e + 1;
      assert p == P64 ==> (e * P64 + P64) / P64 == e + 1;
    } else {
      assert p == P32 ==> (e * P32 + (sig - P32)) / P32 == e && (e * P32 + (sig - P32)) % P32 == sig - P32;
      assert p == P64 ==> (e * P64 + (sig - P64)) / P64 == e && (e * P64 + (sig - P64)) % P64 == sig - P64;
    }
  }

  /** Rounding to the nearest float never swaps two integers. */
  lemma RoundedMagMonotone(m: nat, n: nat, p: nat, bias: nat)
    requires m <= n && bias >= 1
    ensures RoundedMag(m, p, bias) <= RoundedMag(n, p, bias)
  {
    if m > 0 {
      var k, l := BitLen(m), BitLen(n);
      if k > l {
        Pow2Monotone(l, k - 1);
      } else if k == l {
        if k <= p + 1 {
          MulLe(m, n, Pow2(p + 1 - k));
        } else {
          RoundShiftMonotone(m, n, k - p - 1);
        }
        MulLe(Significand(m, p), Significand(n, p), Pow2(k + bias - 2));
      } else {
        ScaleBinades(Significand(m, p), Significand(n, p), p, k + bias - 2, l + bias - 2);
      }
    }
  }

  lemma ScaleBinades(x: nat, y: nat, p: nat, i: nat, j: nat)
    requires x <= Pow2(p + 1) && Pow2(p) <= y && i < j
    ensures x * Pow2(i) <= y * Pow2(j)
  {
    MulLe(x, Pow2(p + 1), Pow2(i));
    Pow2Sum(p + 1, i);
    Pow2Monotone(p + 1 + i, p + j);
    Pow2Sum(p, j);
    MulLe(Pow2(p), y, Pow2(j));
  }

  lemma RoundShiftMonotone(m: nat, n: nat, s: nat)
    requires m <= n
    ensures RoundShift(m, s) <= RoundShift(n, s)
  {
    DivModMonotone(m, n, Pow2(s));
  }

  lemma DivModMonotone(m: nat, n: nat, d: nat)
    requires m <= n && d > 0
    ensures m / d < n / d || (m / d == n / d && m % d <= n % d)
  {
    assert m == m / d * d + m % d && n == n / d * d + n % d;
    if m / d > n / d {
      MulLe(n / d + 1, m / d, d);
    }
  }

  function Signed(negative: bool, m: nat): int {
    if negative then 0 - m else m
  }

  lemma IntValue(n: i64)
    ensures Value32(IntToF32(n)) == Signed(n < 0, RoundedMag(Abs(n), 23, 127))
    ensures Value64(IntToF64(n)) == Signed(n < 0, RoundedMag(Abs(n), 52, 1023))
  {
    IntBitsValue(Abs(n));
  }

  lemma SignedMonotone(m: i64, n: i64, p: nat, bias: nat)
    requires m <= n && bias >= 1
    ensures Signed(m < 0, RoundedMag(Abs(m), p, bias)) <= Signed(n < 0, RoundedMag(Abs(n), p, bias))
  {
    if m >= 0 {
      RoundedMagMonotone(Abs(m), Abs(n), p, bias);
    } else if n < 0 {
      RoundedMagMonotone(Abs(n), Abs(m), p, bias);
    }
  }

  /** Both conversions keep the order of integers (weakly: distinct integers may meet). */
  lemma IntToFloatMonotone(m: i64, n: i64)
    requires m <= n
    ensures Value32(IntToF32(m)) <= Value32(IntToF32(n))
    ensures Value64(IntToF64(m)) <= Value64(IntToF64(n))
  {
    IntValue(m);
    IntValue(n);
    SignedMonotone(m, n, 23, 127);
    SignedMonotone(m, n, 52, 1023);
  }
}
