/** `NormalizedDecimal`: NUMERIC text compared exactly, without going through binary floats. */
module Decimal {
  import opened Basics
  import opened Bytes

  const I64_MIN: int := -0x8000_0000_0000_0000
  const I64_MAX: int := 0x7FFF_FFFF_FFFF_FFFF

  /** `digits` holds ASCII digits; the number is sign * digits * 10^(-scale). */
  datatype NormalizedDecimal = NormalizedDecimal(sign: int, digits: bytes, scale: i64)

  predicate FitsI64(n: int) {
    I64_MIN <= n <= I64_MAX
  }

  /** Two's complement wrap-around of an unchecked i64 operation. */
  function WrapI64(n: int): (r: int)
    ensures FitsI64(r)
    ensures FitsI64(n) ==> r == n
  {
    (n + 0x8000_0000_0000_0000) % 0x1_0000_0000_0000_0000 - 0x8000_0000_0000_0000
  }

  // ---------------------------------------------------------------------------------------------
  // Reading a numeral.

  predicate IsDigit(b: byte) {
    48 <= b <= 57
  }

  predicate AllDigits(s: bytes) {
    forall i :: 0 <= i < |s| ==> IsDigit(s[i])
  }

  predicate AllZeros(s: bytes) {
    forall i :: 0 <= i < |s| ==> s[i] == 48
  }

  /** The number written by a digit string. */
  function Digits(s: bytes): (n: nat)
    requires AllDigits(s)
  {
    if s == [] then 0 else 10 * Digits(s[..|s| - 1]) + (s[|s| - 1] - 48)
  }

  /** The UTF-8 forms of the characters that `str::trim` removes. */
  predicate IsWhitespace(s: bytes) {
    || (|s| == 1 && (9 <= s[0] <= 13 || s[0] == 32))
    || (|s| == 2 && s[0] == 0xC2 && (s[1] == 0x85 || s[1] == 0xA0))
    || (|s| == 3 && s[0] == 0xE1 && s[1] == 0x9A && s[2] == 0x80)
    || (|s| == 3 && s[0] == 0xE2 && s[1] == 0x80 && (0x80 <= s[2] <= 0x8A || s[2] == 0xA8 || s[2] == 0xA9 || s[2] == 0xAF))
    || (|s| == 3 && s[0] == 0xE2 && s[1] == 0x81 && s[2] == 0x9F)
    || (|s| == 3 && s[0] == 0xE3 && s[1] == 0x80 && s[2] == 0x80)
  }

  function TrimStart(s: bytes): bytes {
    if |s| >= 1 && IsWhitespace(s[..1]) then TrimStart(s[1..])
    else if |s| >= 2 && IsWhitespace(s[..2]) then TrimStart(s[2..])
    else if |s| >= 3 && IsWhitespace(s[..3]) then TrimStart(s[3..])
    else s
  }

  function TrimEnd(s: bytes): bytes {
    if |s| >= 1 && IsWhitespace(s[|s| - 1..]) then TrimEnd(s[..|s| - 1])
    else if |s| >= 2 && IsWhitespace(s[|s| - 2..]) then TrimEnd(s[..|s| - 2])
    else if |s| >= 3 && IsWhitespace(s[|s| - 3..]) then TrimEnd(s[..|s| - 3])
    else s
  }

  /** `str::parse::<i64>`: an optional sign, at least one digit, and no overflow. */
  function ParseI64(s: bytes): Option<i64> {
    var negative := s != [] && s[0] == 45;
    var body := if s != [] && (s[0] == 45 || s[0] == 43) then s[1..] else s;
    if body == [] || !AllDigits(body) then None
    else
      var n: int := if negative then 0 - Digits(body) else Digits(body);
      if FitsI64(n) then Some(n) else None
  }

  /** Index of the first `e` or `E`, or the length. */
  function FindExponent(s: bytes): (i: nat)
    ensures i <= |s|
  {
    if s == [] || s[0] == 101 || s[0] == 69 then 0 else 1 + FindExponent(s[1..])
  }

  /** The digits of a mantissa in order, and how many of them follow the dot. */
  datatype Mantissa = Mantissa(digits: bytes, fraction: nat)

  function ReadMantissa(s: bytes, sawDot: bool): (r: Option<Mantissa>)
    ensures r.Some? ==> AllDigits(r.value.digits) && FitsI64(r.value.fraction)
  {
    if s == [] then Some(Mantissa([], 0))
    else if IsDigit(s[0]) then
      match ReadMantissa(s[1..], sawDot)
      case None => None
      case Some(rest) =>
        var fraction := rest.fraction + if sawDot then 1 else 0;
        if FitsI64(fraction) then Some(Mantissa([s[0]] + rest.digits, fraction)) else None
    else if s[0] == 46 && !sawDot then ReadMantissa(s[1..], true)
    else None
  }

  function StripLeading(s: bytes): (r: bytes)
    ensures r == [] || r[0] != 48
    ensures AllDigits(s) ==> AllDigits(r) && Digits(r) == Digits(s)
    ensures r == [] <==> AllZeros(s)
  {
    if s == [] then []
    else if s[0] == 48 then
      assert AllDigits(s) ==> Digits(s) == Digits(s[1..]) by {
        if AllDigits(s) { LeadingZero(s); }
      }
      StripLeading(s[1..])
    else s
  }

  lemma {:induction false} LeadingZero(s: bytes)
    requires s != [] && AllDigits(s) && s[0] == 48
    ensures Digits(s) == Digits(s[1..])
    decreases |s|
  {
    if |s| > 1 {
      LeadingZero(s[..|s| - 1]);
      assert s[..|s| - 1][1..] == s[1..][..|s| - 2];
    }
  }

  /** Drops trailing zeros, lowering the scale once for each; None when the scale cannot go lower. */
  function StripTrailing(s: bytes, scale: i64): (r: Option<(bytes, i64)>) {
    if s == [] || s[|s| - 1] != 48 then Some((s, scale))
    else if scale == I64_MIN then None
    else StripTrailing(s[..|s| - 1], scale - 1)
  }

  /** A numeral taken apart, before normalization: sign, all mantissa digits, and the decimal scale. */
  datatype Numeral = Numeral(sign: int, digits: bytes, scale: int)

  function SplitSign(s: bytes): (r: (int, bytes))
    ensures r.0 == 1 || r.0 == -1
  {
    if s != [] && s[0] == 45 then (-1, s[1..])
    else if s != [] && s[0] == 43 then (1, s[1..])
    else (1, s)
  }

  function ReadExponent(rest: bytes, e: nat): Option<i64> {
    if e < |rest| then ParseI64(rest[e + 1..]) else Some(0)
  }

  function ReadNumeral(s: bytes): (r: Option<Numeral>)
    ensures r.Some? ==> AllDigits(r.value.digits) && (r.value.sign == 1 || r.value.sign == -1)
  {
    if s == [] then None
    else
      var (sign, rest) := SplitSign(s);
      var e := FindExponent(rest);
      match ReadExponent(rest, e)
      case None => None
      case Some(exponent) =>
        match ReadMantissa(rest[..e], false)
        case None => None
        case Some(m) => if m.digits == [] then None else Some(Numeral(sign, m.digits, m.fraction - exponent))
  }

  function Normalize(n: Numeral): (r: Option<NormalizedDecimal>) {
    if !FitsI64(n.scale) then None
    else if AllZeros(n.digits) then Some(NormalizedDecimal(1, [], 0))
    else
      match StripTrailing(StripLeading(n.digits), n.scale)
      case None => None
      case Some((digits, scale)) => Some(NormalizedDecimal(n.sign, digits, scale))
  }

  function ParseTrimmed(s: bytes): Option<NormalizedDecimal> {
    match ReadNumeral(s)
    case None => None
    case Some(n) => Normalize(n)
  }

  function Trim(s: bytes): bytes {
    TrimEnd(TrimStart(s))
  }

  function Parse(raw: bytes): Option<NormalizedDecimal> {
    ParseTrimmed(Trim(raw))
  }

  /** The mantissa loop of `NormalizedDecimal::parse`. */
  method ScanMantissa(mantissa: bytes) returns (r: Option<Mantissa>)
    ensures r == ReadMantissa(mantissa, false)
  {
    var digits: bytes := [];
    var fraction, sawDot := 0, false;
    var i := 0;
    assert mantissa[0..] == mantissa;
    PrependNothing(ReadMantissa(mantissa, false));
    while i < |mantissa|
      invariant 0 <= i <= |mantissa|
      invariant 0 <= fraction && FitsI64(fraction) && (!sawDot ==> fraction == 0)
      invariant ReadMantissa(mantissa, false) == Prepend(digits, fraction, ReadMantissa(mantissa[i..], sawDot))
    {
      var byte := mantissa[i];
      assert mantissa[i..][1..] == mantissa[i + 1..];
      if IsDigit(byte) {
        PrependDigit(digits, fraction, byte, if sawDot then 1 else 0, ReadMantissa(mantissa[i + 1..], sawDot));
        digits := digits + [byte];
        if sawDot {
          if fraction == I64_MAX {
            return None;
          }
          fraction := fraction + 1;
        }
      } else if byte == 46 && !sawDot {
        sawDot := true;
      } else {
        return None;
      }
      i := i + 1;
    }
    assert digits + [] == digits;
    r := Some(Mantissa(digits, fraction));
  }

  /** What the mantissa read so far contributes to the result of the whole read. */
  ghost function Prepend(digits: bytes, fraction: nat, rest: Option<Mantissa>): Option<Mantissa> {
    match rest
    case None => None
    case Some(m) =>
      if FitsI64(fraction + m.fraction) then Some(Mantissa(digits + m.digits, fraction + m.fraction)) else None
  }

  lemma PrependNothing(rest: Option<Mantissa>)
    requires rest.Some? ==> FitsI64(rest.value.fraction)
    ensures Prepend([], 0, rest) == rest
  {
    if rest.Some? {
      assert [] + rest.value.digits == rest.value.digits;
    }
  }

  lemma PrependDigit(digits: bytes, fraction: nat, byte: byte, step: nat, rest: Option<Mantissa>)
    requires rest.Some? ==> FitsI64(rest.value.fraction)
    ensures Prepend(digits + [byte], fraction + step, rest) == Prepend(digits, fraction, Prepend([byte], step, rest))
  {
    if rest.Some? {
      assert digits + ([byte] + rest.value.digits) == digits + [byte] + rest.value.digits;
    }
  }

  /** `NormalizedDecimal::parse` as written: one pass over the mantissa, then two strips. */
  method ParseLoop(raw: bytes) returns (r: Option<NormalizedDecimal>)
    ensures r == Parse(raw)
  {
    r := ParseTrimmedLoop(Trim(raw));
  }

  method ParseTrimmedLoop(s: bytes) returns (r: Option<NormalizedDecimal>)
    ensures r == ParseTrimmed(s)
  {
    if s == [] {
      return None;
    }
    var (sign, rest) := SplitSign(s);
    var e := FindExponent(rest);
    var exponent := ReadExponent(rest, e);
    if exponent.None? {
      return None;
    }
    var mantissa := ScanMantissa(rest[..e]);
    if mantissa.None? || mantissa.value.digits == [] {
      return None;
    }
    r := NormalizeLoop(Numeral(sign, mantissa.value.digits, mantissa.value.fraction - exponent.value));
  }

  /** The second half of `NormalizedDecimal::parse`. */
  method NormalizeLoop(n: Numeral) returns (r: Option<NormalizedDecimal>)
    ensures r == Normalize(n)
  {
    if !FitsI64(n.scale) {
      return None;
    }
    if AllZeros(n.digits) {
      return Some(NormalizedDecimal(1, [], 0));
    }
    var digits, scale: i64 := StripLeading(n.digits), n.scale;
    while digits != [] && digits[|digits| - 1] == 48
      invariant StripTrailing(digits, scale) == StripTrailing(StripLeading(n.digits), n.scale)
    {
      if scale == I64_MIN {
        return None;
      }
      digits := digits[..|digits| - 1];
      scale := scale - 1;
    }
    r := Some(NormalizedDecimal(n.sign, digits, scale));
  }

  // ---------------------------------------------------------------------------------------------
  // Comparing.

  /** `cmp_abs`: decimal exponents first (an unchecked i64 subtraction), then digits padded with zeros. */
  function CmpAbs(a: NormalizedDecimal, b: NormalizedDecimal): Ordering {
    var ea, eb := WrapI64(|a.digits| - a.scale), WrapI64(|b.digits| - b.scale);
    if ea != eb then CompareInt(ea, eb)
    else
      var n := if |a.digits| > |b.digits| then |a.digits| else |b.digits|;
      CmpBytes(Pad(a.digits, n), Pad(b.digits, n))
  }

  function Zeros(n: nat): (r: bytes)
    ensures |r| == n && AllZeros(r)
  {
    seq(n, _ => 48)
  }

  function Pad(s: bytes, n: nat): (r: bytes)
    requires |s| <= n
    ensures |r| == n
  {
    s + Zeros(n - |s|)
  }

  function CmpBytes(a: bytes, b: bytes): Ordering {
    if Lt(a, b) then Less else if Lt(b, a) then Greater else Equal
  }

  method CmpAbsLoop(a: NormalizedDecimal, b: NormalizedDecimal) returns (r: Ordering)
    ensures r == CmpAbs(a, b)
  {
    var ea, eb := WrapI64(|a.digits| - a.scale), WrapI64(|b.digits| - b.scale);
    if ea != eb {
      return CompareInt(ea, eb);
    }
    var n := if |a.digits| > |b.digits| then |a.digits| else |b.digits|;
    ghost var x, y := Pad(a.digits, n), Pad(b.digits, n);
    for idx := 0 to n
      invariant x[..idx] == y[..idx]
    {
      var left := if idx < |a.digits| then a.digits[idx] else 48;
      var right := if idx < |b.digits| then b.digits[idx] else 48;
      assert left == x[idx] && right == y[idx];
      if left != right {
        FirstDifference(x, y, idx);
        return CompareInt(left, right);
      }
    }
    assert x == x[..n] && y == y[..n];
    LtIrreflexive(x);
    r := Equal;
  }

  lemma FirstDifference(x: bytes, y: bytes, k: nat)
    requires |x| == |y| && k < |x| && x[..k] == y[..k] && x[k] != y[k]
    ensures CmpBytes(x, y) == CompareInt(x[k], y[k])
  {
    assert x == x[..k] + x[k..] && y == y[..k] + y[k..];
    LtCommonPrefix(x[..k], x[k..], y[k..]);
    LtCommonPrefix(x[..k], y[k..], x[k..]);
  }

  /** `Ord for NormalizedDecimal`. */
  function Cmp(a: NormalizedDecimal, b: NormalizedDecimal): Ordering {
    if a.digits == [] && b.digits == [] then Equal
    else if a.digits == [] then CompareInt(0, b.sign)
    else if b.digits == [] then CompareInt(a.sign, 0)
    else if a.sign != b.sign then CompareInt(a.sign, b.sign)
    else if a.sign < 0 then CmpAbs(b, a)
    else CmpAbs(a, b)
  }

  /** `numeric_cmp`: text that is not a numeral on either side is compared as text. */
  function NumericCmp(a: bytes, b: bytes): Ordering {
    var x, y := Parse(a), Parse(b);
    if x.Some? && y.Some? then Cmp(x.value, y.value) else CmpBytes(a, b)
  }

  // ---------------------------------------------------------------------------------------------
  // The exact numbers.

  function Pow10(n: nat): (r: nat)
    ensures r > 0
  {
    if n == 0 then 1 else 10 * Pow10(n - 1)
  }

  lemma {:induction false} Pow10Sum(a: nat, b: nat)
    ensures Pow10(a + b) == Pow10(a) * Pow10(b)
    decreases a
  {
    if a > 0 {
      Pow10Sum(a - 1, b);
      assert Pow10(a + b) == 10 * Pow10(a - 1 + b);
    }
  }

  lemma {:induction false} Pow10Monotone(a: nat, b: nat)
    requires a <= b
    ensures Pow10(a) <= Pow10(b)
    decreases b
  {
    if a < b {
      Pow10Monotone(a, b - 1);
    }
  }

  /** The rational number coefficient * 10^(-scale). */
  datatype Exact = Exact(coefficient: int, scale: int)

  /** Its coefficient when written over 10^t, for `t` no smaller than its scale. */
  function Over(x: Exact, t: int): int
    requires x.scale <= t
  {
    x.coefficient * Pow10(t - x.scale)
  }

  function Max(a: int, b: int): int {
    if a < b then b else a
  }

  /** The order of two exact numbers: cross-multiplied to one denominator. */
  function CmpExact(x: Exact, y: Exact): Ordering {
    var t := Max(x.scale, y.scale);
    CompareInt(Over(x, t), Over(y, t))
  }

  /** The number a numeral writes down. */
  function NumeralValue(n: Numeral): Exact
    requires AllDigits(n.digits)
  {
    Exact(n.sign * Digits(n.digits), n.scale)
  }

  predicate Normal(d: NormalizedDecimal) {
    && AllDigits(d.digits)
    && (d.sign == 1 || d.sign == -1)
    && (if d.digits == [] then d.sign == 1 && d.scale == 0 else d.digits[0] != 48 && d.digits[|d.digits| - 1] != 48)
  }

  function Value(d: NormalizedDecimal): Exact
    requires AllDigits(d.digits)
  {
    Exact(d.sign * Digits(d.digits), d.scale)
  }

  lemma MulLe(a: int, b: int, c: nat)
    requires a <= b
    ensures a * c <= b * c
  {
  }

  lemma MulStrict(a: int, b: int, c: nat)
    requires a < b && c > 0
    ensures a * c < b * c
  {
  }

  lemma MulAssoc(a: int, b: int, c: int)
    ensures (a * b) * c == a * (b * c)
  {
  }

  /** Any common denominator gives the same comparison. */
  lemma CmpExactOver(x: Exact, y: Exact, t: int)
    requires x.scale <= t && y.scale <= t
    ensures CmpExact(x, y) == CompareInt(Over(x, t), Over(y, t))
  {
    var m := Max(x.scale, y.scale);
    Pow10Sum(m - x.scale, t - m);
    Pow10Sum(m - y.scale, t - m);
    MulAssoc(x.coefficient, Pow10(m - x.scale), Pow10(t - m));
    MulAssoc(y.coefficient, Pow10(m - y.scale), Pow10(t - m));
    if Over(x, m) < Over(y, m) { MulStrict(Over(x, m), Over(y, m), Pow10(t - m)); }
    if Over(y, m) < Over(x, m) { MulStrict(Over(y, m), Over(x, m), Pow10(t - m)); }
  }

  lemma {:induction false} StripTrailingValue(s: bytes, scale: i64)
    requires AllDigits(s) && StripTrailing(s, scale).Some?
    ensures var (t, k) := StripTrailing(s, scale).value;
      && t <= s && k == scale - (|s| - |t|)
      && Digits(s) == Digits(t) * Pow10(scale - k)
      && (t != [] ==> t[|t| - 1] != 48)
      && (!AllZeros(s) ==> t != [])
    decreases |s|
  {
    if s != [] && s[|s| - 1] == 48 {
      var front := s[..|s| - 1];
      StripTrailingValue(front, scale - 1);
      var (t, k) := StripTrailing(s, scale).value;
      assert Digits(s) == 10 * Digits(front);
      MulAssoc(Digits(t), Pow10(scale - 1 - k), 10);
      if t == [] {
        assert AllZeros(front);
        assert AllZeros(s) by { assert forall i :: 0 <= i < |front| ==> s[i] == front[i]; }
      }
    }
  }

  /** Normalization does not change the number, and its result is in normal form. */
  lemma NormalizePreservesValue(n: Numeral)
    requires AllDigits(n.digits) && (n.sign == 1 || n.sign == -1)
    requires Normalize(n).Some?
    ensures Normal(Normalize(n).value)
    ensures CmpExact(Value(Normalize(n).value), NumeralValue(n)) == Equal
  {
    var d := Normalize(n).value;
    var s := StripLeading(n.digits);
    if AllZeros(n.digits) {
      assert s == [] && Digits(n.digits) == 0;
      assert NumeralValue(n).coefficient == 0;
    } else {
      StripTrailingValue(s, n.scale);
      assert d.digits[0] == s[0];
      CmpExactOver(Value(d), NumeralValue(n), n.scale);
      MulAssoc(n.sign, Digits(d.digits), Pow10(n.scale - d.scale));
    }
  }

  /** Parsing succeeds on a readable numeral unless its scale, before or after stripping, leaves i64. */
  lemma {:induction false} StripTrailingSome(s: bytes, scale: i64, zeros: nat)
    requires zeros <= |s| && AllZeros(s[|s| - zeros..])
    requires zeros == |s| || s[|s| - zeros - 1] != 48
    ensures StripTrailing(s, scale).Some? <==> scale - zeros >= I64_MIN
    decreases |s|
  {
    if zeros > 0 {
      var front := s[..|s| - 1];
      assert s[|s| - 1] == s[|s| - zeros..][zeros - 1];
      assert front[|front| - (zeros - 1)..] == s[|s| - zeros..][..zeros - 1];
      if scale > I64_MIN {
        StripTrailingSome(front, scale - 1, zeros - 1);
      }
    }
  }

  lemma {:induction false} DigitsBounds(s: bytes)
    requires AllDigits(s)
    ensures Digits(s) < Pow10(|s|)
    ensures s != [] && s[0] != 48 ==> Pow10(|s| - 1) <= Digits(s)
    decreases |s|
  {
    if s != [] {
      DigitsBounds(s[..|s| - 1]);
    }
  }

  /** Digit strings of one length sort as bytes the way they sort as numbers. */
  lemma {:induction false} DigitsOrder(a: bytes, b: bytes)
    requires |a| == |b| && AllDigits(a) && AllDigits(b)
    ensures Lt(a, b) <==> Digits(a) < Digits(b)
    ensures a == b <==> Digits(a) == Digits(b)
    decreases |a|
  {
    if a != [] {
      var fa, fb := a[..|a| - 1], b[..|b| - 1];
      var la, lb := a[|a| - 1], b[|b| - 1];
      assert a == fa + [la] && b == fb + [lb];
      DigitsOrder(fa, fb);
      if fa == fb {
        LtCommonPrefix(fa, [la], [lb]);
      } else {
        LtSameLength(fa, fb, [la], [lb]);
      }
    } else {
      assert b == [];
    }
  }

  lemma {:induction false} PadDigits(s: bytes, n: nat)
    requires |s| <= n && AllDigits(s)
    ensures AllDigits(Pad(s, n)) && Digits(Pad(s, n)) == Digits(s) * Pow10(n - |s|)
    decreases n
  {
    if n == |s| {
      assert Pad(s, n) == s;
    } else {
      PadDigits(s, n - 1);
      assert Pad(s, n)[..n - 1] == Pad(s, n - 1);
      MulAssoc(Digits(s), Pow10(n - 1 - |s|), 10);
    }
  }

  /** The decimal exponent one past the leading digit, as an exact integer. */
  function Exponent(d: NormalizedDecimal): int {
    |d.digits| - d.scale
  }

  function AbsValue(d: NormalizedDecimal): Exact
    requires AllDigits(d.digits)
  {
    Exact(Digits(d.digits), d.scale)
  }

  lemma SmallerExponent(a: NormalizedDecimal, b: NormalizedDecimal)
    requires Normal(a) && Normal(b) && b.digits != []
    requires Exponent(a) < Exponent(b)
    ensures CmpExact(AbsValue(a), AbsValue(b)) == Less
    ensures CmpExact(AbsValue(b), AbsValue(a)) == Greater
  {
    var t := Max(a.scale, b.scale);
    DigitsBounds(a.digits);
    DigitsBounds(b.digits);
    MulStrict(Digits(a.digits), Pow10(|a.digits|), Pow10(t - a.scale));
    MulLe(Pow10(|b.digits| - 1), Digits(b.digits), Pow10(t - b.scale));
    Pow10Sum(|a.digits|, t - a.scale);
    Pow10Sum(|b.digits| - 1, t - b.scale);
    Pow10Monotone(|a.digits| + t - a.scale, |b.digits| - 1 + t - b.scale);
  }

  lemma SameExponent(a: NormalizedDecimal, b: NormalizedDecimal, n: nat)
    requires Normal(a) && Normal(b)
    requires Exponent(a) == Exponent(b) && n == Max(|a.digits|, |b.digits|)
    ensures CmpExact(AbsValue(a), AbsValue(b)) == CmpBytes(Pad(a.digits, n), Pad(b.digits, n))
  {
    PadDigits(a.digits, n);
    PadDigits(b.digits, n);
    DigitsOrder(Pad(a.digits, n), Pad(b.digits, n));
    DigitsOrder(Pad(b.digits, n), Pad(a.digits, n));
  }

  /** `cmp_abs` orders magnitudes exactly as long as its two subtractions stay in i64. */
  lemma CmpAbsExact(a: NormalizedDecimal, b: NormalizedDecimal)
    requires Normal(a) && Normal(b) && a.digits != [] && b.digits != []
    requires FitsI64(Exponent(a)) && FitsI64(Exponent(b))
    ensures CmpAbs(a, b) == CmpExact(AbsValue(a), AbsValue(b))
  {
    if Exponent(a) < Exponent(b) {
      SmallerExponent(a, b);
    } else if Exponent(b) < Exponent(a) {
      SmallerExponent(b, a);
    } else {
      SameExponent(a, b, Max(|a.digits|, |b.digits|));
    }
  }

  /** Comparing normalized decimals is comparing the exact numbers they denote. */
  lemma CmpIsExact(a: NormalizedDecimal, b: NormalizedDecimal)
    requires Normal(a) && Normal(b)
    requires FitsI64(Exponent(a)) && FitsI64(Exponent(b))
    ensures Cmp(a, b) == CmpExact(Value(a), Value(b))
  {
    var t := Max(a.scale, b.scale);
    if a.digits != [] && b.digits != [] && a.sign == b.sign {
      CmpAbsExact(a, b);
      CmpAbsExact(b, a);
      SignedCmpExact(a, b);
    } else {
      CoefficientSign(a, t);
      CoefficientSign(b, t);
    }
  }

  lemma NegOver(n: int, k: nat)
    ensures (-1 * n) * Pow10(k) == -(n * Pow10(k))
  {
  }

  lemma CoefficientSign(d: NormalizedDecimal, t: int)
    requires Normal(d) && d.scale <= t
    ensures d.digits == [] ==> Over(Value(d), t) == 0
    ensures d.digits != [] && d.sign == 1 ==> Over(Value(d), t) > 0
    ensures d.digits != [] && d.sign == -1 ==> Over(Value(d), t) < 0
  {
    if d.digits != [] {
      DigitsBounds(d.digits);
      MulLe(1, Digits(d.digits), Pow10(t - d.scale));
      NegOver(Digits(d.digits), t - d.scale);
    }
  }

  /** Two normal forms denote the same number only when they are the same record, whatever their scales. */
  lemma NormalFormUnique(a: NormalizedDecimal, b: NormalizedDecimal)
    requires Normal(a) && Normal(b)
    ensures CmpExact(Value(a), Value(b)) == Equal <==> a == b
  {
    var t := Max(a.scale, b.scale);
    CoefficientSign(a, t);
    CoefficientSign(b, t);
    if CmpExact(Value(a), Value(b)) == Equal && a.digits != [] {
      if a.sign < 0 {
        NegOver(Digits(a.digits), t - a.scale);
        NegOver(Digits(b.digits), t - b.scale);
      }
      assert Over(AbsValue(a), t) == Over(AbsValue(b), t);
      if Exponent(a) < Exponent(b) {
        SmallerExponent(a, b);
      } else if Exponent(b) < Exponent(a) {
        SmallerExponent(b, a);
      } else if a.scale < b.scale {
        LastDigitZero(a, b);
      } else if b.scale < a.scale {
        LastDigitZero(b, a);
      } else {
        DigitsOrder(a.digits, b.digits);
      }
    }
  }

  lemma LastDigitZero(a: NormalizedDecimal, b: NormalizedDecimal)
    requires Normal(a) && Normal(b) && a.scale < b.scale && b.digits != []
    ensures Digits(a.digits) * Pow10(b.scale - a.scale) != Digits(b.digits)
  {
    var k := b.scale - a.scale;
    MulAssoc(Digits(a.digits), Pow10(k - 1), 10);
    ghost var half := Digits(a.digits) * Pow10(k - 1);
    assert Digits(a.digits) * Pow10(k) == 10 * half;
    LastDigit(b.digits, half);
  }

  lemma LastDigit(s: bytes, n: int)
    requires AllDigits(s) && s != [] && s[|s| - 1] != 48
    ensures Digits(s) != 10 * n
  {
  }

  /**
   * Exactly when a nonzero decimal compares correctly with every decimal whose own exponent is
   * computable: when its exponent is. Otherwise the subtraction in `cmp_abs` wraps around.
   * (A `Vec` holds fewer than 2^63 digits.)
   */
  lemma CmpExactIffExponentFits(a: NormalizedDecimal)
    requires Normal(a) && a.digits != [] && |a.digits| <= I64_MAX
    ensures FitsI64(Exponent(a)) <==>
      forall b :: Normal(b) && FitsI64(Exponent(b)) ==> Cmp(a, b) == CmpExact(Value(a), Value(b))
  {
    if FitsI64(Exponent(a)) {
      forall b | Normal(b) && FitsI64(Exponent(b))
        ensures Cmp(a, b) == CmpExact(Value(a), Value(b))
      {
        CmpIsExact(a, b);
      }
    } else {
      var b := if a.sign == 1 then NormalizedDecimal(1, [49], 0) else NormalizedDecimal(-1, [49], 0);
      OverflowingExponent(a, b);
      assert Normal(b) && FitsI64(Exponent(b));
    }
  }

  /** A magnitude so large that its exponent overflows sorts below one. */
  lemma OverflowingExponent(a: NormalizedDecimal, b: NormalizedDecimal)
    requires Normal(a) && a.digits != [] && !FitsI64(Exponent(a)) && |a.digits| <= I64_MAX
    requires b == NormalizedDecimal(a.sign, [49], 0)
    ensures Cmp(a, b) != CmpExact(Value(a), Value(b))
  {
    WrapsNegative(Exponent(a));
    assert Exponent(b) == 1;
    SmallerExponent(b, a);
    SignedCmpExact(a, b);
  }

  lemma SignedCmpExact(a: NormalizedDecimal, b: NormalizedDecimal)
    requires Normal(a) && Normal(b) && a.sign == b.sign
    ensures CmpExact(Value(a), Value(b)) ==
      if a.sign < 0 then CmpExact(AbsValue(b), AbsValue(a)) else CmpExact(AbsValue(a), AbsValue(b))
  {
    if a.sign < 0 {
      var t := Max(a.scale, b.scale);
      NegOver(Digits(a.digits), t - a.scale);
      NegOver(Digits(b.digits), t - b.scale);
    }
  }

  lemma WrapsNegative(n: int)
    requires I64_MAX < n <= 2 * I64_MAX + 1
    ensures WrapI64(n) < 0
  {
  }

  /** 1e9223372036854775807 parses, and is then found smaller than 1. */
  lemma OverflowWitness()
    ensures Normalize(Numeral(1, [49], 0 - I64_MAX)) == Some(NormalizedDecimal(1, [49], 0 - I64_MAX))
    ensures Cmp(NormalizedDecimal(1, [49], 0 - I64_MAX), NormalizedDecimal(1, [49], 0)) == Less
    ensures CmpExact(Value(NormalizedDecimal(1, [49], 0 - I64_MAX)), Value(NormalizedDecimal(1, [49], 0))) == Greater
  {
    var big, one := NormalizedDecimal(1, [49], 0 - I64_MAX), NormalizedDecimal(1, [49], 0);
    OverflowingExponent(big, one);
    SmallerExponent(one, big);
  }

  lemma CmpExactCongruent(x: Exact, x': Exact, y: Exact, y': Exact)
    requires CmpExact(x, x') == Equal && CmpExact(y, y') == Equal
    ensures CmpExact(x, y) == CmpExact(x', y')
  {
    var t := Max(Max(x.scale, x'.scale), Max(y.scale, y'.scale));
    CmpExactOver(x, x', t);
    CmpExactOver(y, y', t);
    CmpExactOver(x, y, t);
    CmpExactOver(x', y', t);
  }

  /** `numeric_cmp` on two numerals: the order of the numbers they write, and equality of their normal forms. */
  lemma NumericCmpIsExact(a: bytes, b: bytes)
    requires Parse(a).Some? && Parse(b).Some?
    requires FitsI64(Exponent(Parse(a).value)) && FitsI64(Exponent(Parse(b).value))
    ensures var m, n := ReadNumeral(Trim(a)).value, ReadNumeral(Trim(b)).value;
      NumericCmp(a, b) == CmpExact(NumeralValue(m), NumeralValue(n))
    ensures NumericCmp(a, b) == Equal <==> Parse(a) == Parse(b)
  {
    var m, n := ReadNumeral(Trim(a)).value, ReadNumeral(Trim(b)).value;
    var x, y := Parse(a).value, Parse(b).value;
    NormalizePreservesValue(m);
    NormalizePreservesValue(n);
    CmpIsExact(x, y);
    CmpExactCongruent(Value(x), NumeralValue(m), Value(y), NumeralValue(n));
    NormalFormUnique(x, y);
  }

  /** The text reads as a number whose exponent fits: its comparisons are exact. */
  predicate Comparable(s: bytes) {
    Parse(s).Some? && FitsI64(Exponent(Parse(s).value))
  }

  /** Three such texts, over one scale: their comparisons are those of three integers. */
  lemma CommonScale(a: bytes, b: bytes, c: bytes) returns (r: (int, int, int))
    requires Comparable(a) && Comparable(b) && Comparable(c)
    ensures NumericCmp(a, b) == CompareInt(r.0, r.1) && NumericCmp(b, a) == CompareInt(r.1, r.0)
    ensures NumericCmp(b, c) == CompareInt(r.1, r.2) && NumericCmp(c, b) == CompareInt(r.2, r.1)
    ensures NumericCmp(a, c) == CompareInt(r.0, r.2) && NumericCmp(c, a) == CompareInt(r.2, r.0)
  {
    hide NumericCmp, CmpExact, NumeralValue, Parse, Over;
    var x, y, z := NumberOf(a), NumberOf(b), NumberOf(c);
    var t := Max(x.scale, Max(y.scale, z.scale));
    r := (Over(x, t), Over(y, t), Over(z, t));
    CmpAsNumbers(a, b, t);
    CmpAsNumbers(b, a, t);
    CmpAsNumbers(b, c, t);
    CmpAsNumbers(c, b, t);
    CmpAsNumbers(a, c, t);
    CmpAsNumbers(c, a, t);
  }

  /** The number that a text writes down. */
  function NumberOf(s: bytes): Exact
    requires Parse(s).Some?
  {
    NumeralValue(ReadNumeral(Trim(s)).value)
  }

  lemma CmpAsNumbers(a: bytes, b: bytes, t: int)
    requires Comparable(a) && Comparable(b) && NumberOf(a).scale <= t && NumberOf(b).scale <= t
    ensures NumericCmp(a, b) == CompareInt(Over(NumberOf(a), t), Over(NumberOf(b), t))
  {
    hide NumericCmp, CmpExact, NumeralValue, Over;
    NumericCmpIsExact(a, b);
    CmpExactOver(NumberOf(a), NumberOf(b), t);
  }

  lemma TrimPlain(s: bytes)
    requires s != [] && forall i :: 0 <= i < |s| ==> 33 <= s[i] <= 126
    ensures Trim(s) == s
  {
    assert TrimStart(s) == s;
    assert TrimEnd(s) == s;
  }

  lemma {:induction false} PlainDigits(s: bytes)
    requires AllDigits(s) && |s| <= 2
    ensures FindExponent(s) == |s|
    ensures ReadMantissa(s, false) == Some(Mantissa(s, 0))
    decreases |s|
  {
    if s != [] {
      PlainDigits(s[1..]);
      assert s == [s[0]] + s[1..];
    }
  }

  lemma PlainNumeral(s: bytes)
    requires AllDigits(s) && 0 < |s| <= 2
    ensures ReadNumeral(s) == Some(Numeral(1, s, 0))
  {
    PlainDigits(s);
    assert s[..|s|] == s;
  }

  /** The texts 9 and 10. */
  lemma NineAndTen()
    ensures Parse([57]) == Some(NormalizedDecimal(1, [57], 0))
    ensures Parse([49, 48]) == Some(NormalizedDecimal(1, [49], -1))
  {
    hide Trim, ReadNumeral;
    TrimPlain([57]);
    TrimPlain([49, 48]);
    PlainNumeral([57]);
    PlainNumeral([49, 48]);
    NormalizeNineAndTen();
  }

  lemma NormalizeNineAndTen()
    ensures Normalize(Numeral(1, [57], 0)) == Some(NormalizedDecimal(1, [57], 0))
    ensures Normalize(Numeral(1, [49, 48], 0)) == Some(NormalizedDecimal(1, [49], -1))
  {
    hide AllDigits, Digits;
    assert StripLeading([57]) == [57] && StripLeading([49, 48]) == [49, 48];
    assert [49, 48][..1] == [49];
    assert StripTrailing([49], -1) == Some(([49], -1));
    assert StripTrailing([49, 48], 0) == Some(([49], -1));
  }
}
