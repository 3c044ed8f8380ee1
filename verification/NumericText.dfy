/** NUMERIC texts from the writing side: every way to write a number is read as that number. */
module NumericText {
  import opened Basics
  import opened Bytes
  import opened Decimal

  // ---------------------------------------------------------------------------------------------
  // Writing numbers down.

  datatype Mark = Bare | Minus | Plus

  function MarkText(m: Mark): bytes {
    match m
    case Bare => []
    case Minus => [45]
    case Plus => [43]
  }

  function Signed(m: Mark, n: nat): int {
    if m == Minus then 0 - n else n
  }

  /** `e` or `E`, an optional sign and digits; or nothing. */
  datatype Power = NoPower | Power(upper: bool, mark: Mark, digits: bytes)

  predicate WellWritten(p: Power) {
    p.Power? ==> p.digits != [] && AllDigits(p.digits)
  }

  function PowerText(p: Power): bytes {
    match p
    case NoPower => []
    case Power(upper, mark, digits) => [if upper then 69 else 101] + (MarkText(mark) + digits)
  }

  function PowerValue(p: Power): int
    requires WellWritten(p)
  {
    match p
    case NoPower => 0
    case Power(_, mark, digits) => Signed(mark, Digits(digits))
  }

  /** An optional sign, digits, maybe a dot and digits after it, maybe a power of ten. */
  datatype Written = Written(mark: Mark, whole: bytes, dot: bool, fraction: bytes, power: Power) {
    predicate Valid() {
      && AllDigits(whole) && AllDigits(fraction) && whole + fraction != [] && (fraction != [] ==> dot) && WellWritten(power)
      && FitsI64(|fraction|) && FitsI64(PowerValue(power))
    }

    function MantissaText(): bytes {
      whole + if dot then [46] + fraction else []
    }

    function Text(): bytes {
      MarkText(mark) + (MantissaText() + PowerText(power))
    }

    /** All its digits. */
    function AllOf(): bytes {
      whole + fraction
    }

    function Scale(): int
      requires Valid()
    {
      |fraction| - PowerValue(power)
    }

    /** The number it stands for: sign, digits, and the power of ten. */
    function Number(): Exact
      requires Valid()
    {
      Exact(Signed(mark, Digits(AllOf())), Scale())
    }
  }

  /** Blanks as they may stand around a number: tab, line feed and the like, and space. */
  predicate Blank(s: bytes) {
    forall i :: 0 <= i < |s| ==> 9 <= s[i] <= 13 || s[i] == 32
  }

  predicate Printable(s: bytes) {
    forall i :: 0 <= i < |s| ==> 33 <= s[i] <= 126
  }

  // ---------------------------------------------------------------------------------------------
  // Blanks are trimmed.

  lemma {:induction false} TrimmedStart(a: bytes, s: bytes)
    requires Blank(a) && s != [] && 33 <= s[0] <= 126
    ensures TrimStart(a + s) == s
    decreases |a|
  {
    if a == [] {
      assert a + s == s;
    } else {
      assert (a + s)[..1] == [a[0]] && (a + s)[1..] == a[1..] + s;
      TrimmedStart(a[1..], s);
    }
  }

  lemma {:induction false} TrimmedEnd(s: bytes, b: bytes)
    requires Blank(b) && s != [] && 33 <= s[|s| - 1] <= 126
    ensures TrimEnd(s + b) == s
    decreases |b|
  {
    if b == [] {
      assert s + b == s;
      NoBlankEnd(s);
    } else {
      var k := |s + b| - 1;
      assert (s + b)[k..] == [b[|b| - 1]] && (s + b)[..k] == s + b[..|b| - 1];
      TrimmedEnd(s, b[..|b| - 1]);
    }
  }

  lemma NoBlankEnd(s: bytes)
    requires s != [] && 33 <= s[|s| - 1] <= 126
    ensures TrimEnd(s) == s
  {
    hide IsWhitespace, TrimEnd;
    NoBlank(s[|s| - 1..]);
    if |s| >= 2 { NoBlank(s[|s| - 2..]); }
    if |s| >= 3 { NoBlank(s[|s| - 3..]); }
    TrimEndStops(s);
  }

  lemma TrimEndStops(s: bytes)
    requires (|s| >= 1 ==> !IsWhitespace(s[|s| - 1..])) && (|s| >= 2 ==> !IsWhitespace(s[|s| - 2..])) && (|s| >= 3 ==> !IsWhitespace(s[|s| - 3..]))
    ensures TrimEnd(s) == s
  {
    hide IsWhitespace;
  }

  lemma NoBlank(s: bytes)
    requires s != [] && 33 <= s[|s| - 1] <= 126
    ensures !IsWhitespace(s)
  {
  }

  lemma Trimmed(a: bytes, s: bytes, b: bytes)
    requires Blank(a) && Blank(b) && s != [] && Printable(s)
    ensures Trim(a + s + b) == s
  {
    hide TrimStart, TrimEnd;
    assert a + s + b == a + (s + b) && (s + b)[0] == s[0];
    TrimmedStart(a, s + b);
    TrimmedEnd(s, b);
  }

  lemma TextIsPrintable(w: Written)
    requires w.Valid()
    ensures Printable(w.Text()) && w.Text() != []
  {
    hide Digits;
  }

  // ---------------------------------------------------------------------------------------------
  // The parts are read back.

  lemma {:induction false} ExponentFound(m: bytes, rest: bytes)
    requires (forall i :: 0 <= i < |m| ==> m[i] != 101 && m[i] != 69) && (rest == [] || rest[0] == 101 || rest[0] == 69)
    ensures FindExponent(m + rest) == |m|
    decreases |m|
  {
    if m == [] {
      assert m + rest == rest;
    } else {
      assert (m + rest)[1..] == m[1..] + rest;
      ExponentFound(m[1..], rest);
    }
  }

  lemma SignRead(m: Mark, body: bytes)
    requires body != [] && body[0] != 45 && body[0] != 43
    ensures SplitSign(MarkText(m) + body) == (if m == Minus then -1 else 1, body)
  {
    if m == Bare {
      assert MarkText(m) + body == body;
    } else {
      assert (MarkText(m) + body)[1..] == body;
    }
  }

  lemma {:induction false} FractionRead(f: bytes)
    requires AllDigits(f) && FitsI64(|f|)
    ensures ReadMantissa(f, true) == Some(Mantissa(f, |f|))
    decreases |f|
  {
    if f != [] {
      FractionRead(f[1..]);
      assert [f[0]] + f[1..] == f;
    }
  }

  lemma DigitRead(d: byte, rest: bytes, m: Mantissa)
    requires IsDigit(d) && ReadMantissa(rest, false) == Some(m)
    ensures ReadMantissa([d] + rest, false) == Some(Mantissa([d] + m.digits, m.fraction))
  {
    assert ([d] + rest)[1..] == rest;
  }

  lemma PointRead(dot: bool, f: bytes)
    requires AllDigits(f) && FitsI64(|f|) && (f != [] ==> dot)
    ensures ReadMantissa(if dot then [46] + f else [], false) == Some(Mantissa(f, |f|))
  {
    if dot {
      assert ([46] + f)[1..] == f;
      FractionRead(f);
    }
  }

  lemma {:induction false} MantissaRead(whole: bytes, dot: bool, f: bytes)
    requires AllDigits(whole) && AllDigits(f) && FitsI64(|f|) && (f != [] ==> dot)
    ensures ReadMantissa(whole + (if dot then [46] + f else []), false) == Some(Mantissa(whole + f, |f|))
    decreases |whole|
  {
    hide ReadMantissa;
    var rest := if dot then [46] + f else [];
    if whole == [] {
      assert whole + rest == rest && whole + f == f;
      PointRead(dot, f);
    } else {
      MantissaRead(whole[1..], dot, f);
      DigitRead(whole[0], whole[1..] + rest, Mantissa(whole[1..] + f, |f|));
      assert [whole[0]] + (whole[1..] + rest) == whole + rest && [whole[0]] + (whole[1..] + f) == whole + f;
    }
  }

  lemma PowerRead(m: Mark, digits: bytes)
    requires digits != [] && AllDigits(digits) && FitsI64(Signed(m, Digits(digits)))
    ensures ParseI64(MarkText(m) + digits) == Some(Signed(m, Digits(digits)))
  {
    hide Digits;
    var s := MarkText(m) + digits;
    if m == Bare {
      assert s == digits && IsDigit(s[0]);
    } else {
      assert s[1..] == digits;
    }
  }

  /** What the reader makes of a written number. */
  lemma TextIsRead(w: Written)
    requires w.Valid()
    ensures ReadNumeral(w.Text()) == Some(Numeral(if w.mark == Minus then -1 else 1, w.AllOf(), w.Scale()))
  {
    hide Digits, FindExponent, ReadMantissa, ParseI64, MarkText;
    var m, p := w.MantissaText(), PowerText(w.power);
    var body := m + p;
    MantissaHead(w);
    SignRead(w.mark, body);
    ExponentFound(m, p);
    MantissaRead(w.whole, w.dot, w.fraction);
    assert body[..|m|] == m;
    if w.power.Power? {
      assert body[|m| + 1..] == MarkText(w.power.mark) + w.power.digits;
      PowerRead(w.power.mark, w.power.digits);
    }
    assert w.Text() != [];
  }

  lemma MantissaHead(w: Written)
    requires w.Valid()
    ensures var m := w.MantissaText();
      && m != [] && m[0] != 45 && m[0] != 43 && (forall i :: 0 <= i < |m| ==> m[i] != 101 && m[i] != 69)
      && (w.MantissaText() + PowerText(w.power))[0] == m[0]
      && (PowerText(w.power) == [] || PowerText(w.power)[0] == 101 || PowerText(w.power)[0] == 69)
  {
    hide Digits;
  }

  // ---------------------------------------------------------------------------------------------
  // When it parses.

  function TrailingZeros(s: bytes): (n: nat)
    ensures n <= |s| && AllZeros(s[|s| - n..]) && (n == |s| || s[|s| - n - 1] != 48)
  {
    if s == [] || s[|s| - 1] != 48 then 0
    else
      var n := TrailingZeros(s[..|s| - 1]);
      assert s[|s| - (n + 1)..] == s[..|s| - 1][|s| - 1 - n..] + [48];
      n + 1
  }

  lemma {:induction false} LeadingKeepsTrailing(s: bytes)
    requires !AllZeros(s)
    ensures TrailingZeros(StripLeading(s)) == TrailingZeros(s)
    decreases |s|
  {
    hide Digits;
    if s[0] == 48 {
      LeadingKeepsTrailing(s[1..]);
      SameTrailing(s);
    }
  }

  lemma SameTrailing(s: bytes)
    requires s != [] && s[0] == 48 && !AllZeros(s[1..])
    ensures TrailingZeros(s) == TrailingZeros(s[1..])
  {
    var n, m, rest := TrailingZeros(s), TrailingZeros(s[1..]), s[1..];
    assert m < |rest| && rest[|rest| - m - 1] != 48 && rest[|rest| - m - 1] == s[|s| - m - 1];
    assert AllZeros(rest[|rest| - m..]) && rest[|rest| - m..] == s[|s| - m..];
    forall i | |s| - m <= i < |s| ensures s[i] == 48 {
      assert s[|s| - m..][i - (|s| - m)] == s[i];
    }
    forall i | |s| - n <= i < |s| ensures s[i] == 48 {
      assert s[|s| - n..][i - (|s| - n)] == s[i];
    }
  }

  lemma NormalizesExactly(n: Numeral)
    requires AllDigits(n.digits)
    ensures Normalize(n).Some? <==> FitsI64(n.scale) && (AllZeros(n.digits) || n.scale - TrailingZeros(n.digits) >= I64_MIN)
  {
    hide Digits, TrailingZeros;
    if FitsI64(n.scale) && !AllZeros(n.digits) {
      LeadingKeepsTrailing(n.digits);
      var s := StripLeading(n.digits);
      StripTrailingSome(s, n.scale, TrailingZeros(s));
    }
  }

  /**
   * A number written in any of these ways, with blanks around it, parses exactly when its scale, and what is left of it
   * without the trailing zeros, fits i64; and then it parses as that number.
   */
  lemma WrittenParses(a: bytes, w: Written, b: bytes)
    requires w.Valid() && Blank(a) && Blank(b)
    ensures var d := Parse(a + w.Text() + b);
      && (d.Some? <==> FitsI64(w.Scale()) && (AllZeros(w.AllOf()) || w.Scale() - TrailingZeros(w.AllOf()) >= I64_MIN))
      && (d.Some? ==> Normal(d.value) && CmpExact(Value(d.value), w.Number()) == Equal)
  {
    hide Trim, ReadNumeral, Normalize, TrailingZeros, CmpExact, Normal, Digits;
    TextIsPrintable(w);
    Trimmed(a, w.Text(), b);
    TextIsRead(w);
    var n := ReadNumeral(w.Text()).value;
    NormalizesExactly(n);
    if Normalize(n).Some? {
      NormalizePreservesValue(n);
    }
  }

  /** Two written numbers that parse with exponents in i64 compare as the numbers, whatever their signs. */
  lemma WrittenCompare(a: bytes, v: Written, b: bytes, c: bytes, w: Written, d: bytes)
    requires v.Valid() && w.Valid() && Blank(a) && Blank(b) && Blank(c) && Blank(d)
    requires Comparable(a + v.Text() + b) && Comparable(c + w.Text() + d)
    ensures NumericCmp(a + v.Text() + b, c + w.Text() + d) == CmpExact(v.Number(), w.Number())
  {
    hide Trim, ReadNumeral, Parse, CmpExact, Digits, NumericCmp;
    NumericCmpIsExact(a + v.Text() + b, c + w.Text() + d);
    TextIsPrintable(v);
    Trimmed(a, v.Text(), b);
    TextIsRead(v);
    TextIsPrintable(w);
    Trimmed(c, w.Text(), d);
    TextIsRead(w);
  }
}
