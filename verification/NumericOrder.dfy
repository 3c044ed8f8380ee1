/** The order of NUMERIC texts: total where they parse, whatever their exponents, and exactly when it is transitive. */
module NumericOrder {
  import opened Basics
  import opened Bytes
  import opened Decimal
  import opened OrderLaws

  // ---------------------------------------------------------------------------------------------
  // Texts that parse.

  /** More padding on both sides changes no comparison. */
  lemma PadMore(x: bytes, y: bytes, n: nat, m: nat)
    requires |x| <= n <= m && |y| <= n
    ensures CmpBytes(Pad(x, m), Pad(y, m)) == CmpBytes(Pad(x, n), Pad(y, n))
  {
    var p, q, zeros := Pad(x, n), Pad(y, n), Zeros(m - n);
    assert Pad(x, m) == p + zeros && Pad(y, m) == q + zeros;
    if p == q {
      LtIrreflexive(p);
      LtIrreflexive(p + zeros);
    } else {
      LtSameLength(p, q, zeros, zeros);
      LtSameLength(q, p, zeros, zeros);
    }
  }

  /** The exponent that `cmp_abs` computes. */
  function WrappedExponent(d: NormalizedDecimal): int {
    WrapI64(Exponent(d))
  }

  /** The digits can be padded to any width that holds both. */
  lemma CmpAbsPadded(a: NormalizedDecimal, b: NormalizedDecimal, m: nat)
    requires |a.digits| <= m && |b.digits| <= m
    ensures CmpAbs(a, b) == Then(CompareInt(WrappedExponent(a), WrappedExponent(b)), CmpBytes(Pad(a.digits, m), Pad(b.digits, m)))
  {
    hide CmpBytes, Pad, WrapI64;
    PadMore(a.digits, b.digits, if |a.digits| > |b.digits| then |a.digits| else |b.digits|, m);
  }

  /** `cmp_abs` is a total preorder, whether its subtractions wrap or not. */
  lemma CmpAbsLaws(a: NormalizedDecimal, b: NormalizedDecimal, c: NormalizedDecimal)
    ensures Laws(CmpAbs(a, b), CmpAbs(b, a), CmpAbs(b, c), CmpAbs(c, b), CmpAbs(a, c), CmpAbs(c, a))
  {
    hide Laws, CmpAbs, CmpBytes, Pad, WrappedExponent, Then;
    var m := |a.digits| + |b.digits| + |c.digits|;
    CmpAbsPadded(a, b, m);
    CmpAbsPadded(b, a, m);
    CmpAbsPadded(b, c, m);
    CmpAbsPadded(c, b, m);
    CmpAbsPadded(a, c, m);
    CmpAbsPadded(c, a, m);
    var x, y, z := Pad(a.digits, m), Pad(b.digits, m), Pad(c.digits, m);
    BytesLaws(x, y, z);
    FlipsOfLaws(CmpBytes(x, y), CmpBytes(y, x), CmpBytes(y, z), CmpBytes(z, y), CmpBytes(x, z), CmpBytes(z, x));
    LexLaws(WrappedExponent(a), WrappedExponent(b), WrappedExponent(c), CmpBytes(x, y), CmpBytes(y, x), CmpBytes(y, z), CmpBytes(z, y),
      CmpBytes(x, z), CmpBytes(z, x));
  }

  lemma FlipsOfLaws(ab: Ordering, ba: Ordering, bc: Ordering, cb: Ordering, ac: Ordering, ca: Ordering)
    requires Laws(ab, ba, bc, cb, ac, ca)
    ensures ab == ba.Reverse() && bc == cb.Reverse() && ac == ca.Reverse()
  {
  }

  predicate Signed(d: NormalizedDecimal) {
    d.sign == 1 || d.sign == -1
  }

  function SignOf(d: NormalizedDecimal): int {
    if d.digits == [] then 0 else d.sign
  }

  /** How two decimals of one sign compare. */
  function CmpWithin(a: NormalizedDecimal, b: NormalizedDecimal): Ordering {
    if SignOf(a) == 0 then Equal else if SignOf(a) < 0 then CmpAbs(b, a) else CmpAbs(a, b)
  }

  lemma CmpBySign(a: NormalizedDecimal, b: NormalizedDecimal)
    requires Signed(a) && Signed(b)
    ensures Cmp(a, b) == Then(CompareInt(SignOf(a), SignOf(b)), CmpWithin(a, b))
  {
    hide CmpAbs;
  }

  lemma CmpWithinLaws(a: NormalizedDecimal, b: NormalizedDecimal, c: NormalizedDecimal)
    requires SignOf(a) == SignOf(b) == SignOf(c)
    ensures Laws(CmpWithin(a, b), CmpWithin(b, a), CmpWithin(b, c), CmpWithin(c, b), CmpWithin(a, c), CmpWithin(c, a))
  {
    hide CmpAbs;
    CmpAbsLaws(a, b, c);
    ReversedLaws(CmpAbs(a, b), CmpAbs(b, a), CmpAbs(b, c), CmpAbs(c, b), CmpAbs(a, c), CmpAbs(c, a));
  }

  lemma CmpWithinFlips(a: NormalizedDecimal, b: NormalizedDecimal)
    requires SignOf(a) == SignOf(b)
    ensures CmpWithin(a, b) == CmpWithin(b, a).Reverse()
  {
    hide CmpWithin, SignOf;
    CmpWithinLaws(a, b, b);
  }

  lemma CmpLaws(a: NormalizedDecimal, b: NormalizedDecimal, c: NormalizedDecimal)
    requires Signed(a) && Signed(b) && Signed(c)
    ensures Laws(Cmp(a, b), Cmp(b, a), Cmp(b, c), Cmp(c, b), Cmp(a, c), Cmp(c, a))
  {
    hide Laws, Cmp, CmpWithin, SignOf, Then, Signed;
    CmpBySign(a, b);
    CmpBySign(b, a);
    CmpBySign(b, c);
    CmpBySign(c, b);
    CmpBySign(a, c);
    CmpBySign(c, a);
    if SignOf(a) == SignOf(b) { CmpWithinFlips(a, b); }
    if SignOf(b) == SignOf(c) { CmpWithinFlips(b, c); }
    if SignOf(a) == SignOf(c) { CmpWithinFlips(a, c); }
    if SignOf(a) == SignOf(b) == SignOf(c) { CmpWithinLaws(a, b, c); }
    LexLaws(SignOf(a), SignOf(b), SignOf(c), CmpWithin(a, b), CmpWithin(b, a), CmpWithin(b, c), CmpWithin(c, b),
      CmpWithin(a, c), CmpWithin(c, a));
  }

  lemma ParsedIsSigned(s: bytes)
    requires Parse(s).Some?
    ensures Signed(Parse(s).value)
  {
    hide AllZeros, StripTrailing, StripLeading, Trim;
  }

  /** On texts that parse, the order is a total preorder. */
  lemma NumericLaws(a: bytes, b: bytes, c: bytes)
    requires Parse(a).Some? && Parse(b).Some? && Parse(c).Some?
    ensures Laws(NumericCmp(a, b), NumericCmp(b, a), NumericCmp(b, c), NumericCmp(c, b), NumericCmp(a, c), NumericCmp(c, a))
  {
    hide Laws, Cmp, Parse, Signed;
    ParsedIsSigned(a);
    ParsedIsSigned(b);
    ParsedIsSigned(c);
    CmpLaws(Parse(a).value, Parse(b).value, Parse(c).value);
  }

  // ---------------------------------------------------------------------------------------------
  // Texts that do not.

  /** As bytes, `w`, which does not parse, comes after one number and before another that is no greater. */
  predicate TextBetween(a: bytes, b: bytes, w: bytes) {
    && Parse(a).Some? && Parse(b).Some? && Parse(w).None?
    && NumericCmp(a, b) != Greater && Lt(b, w) && Lt(w, a)
  }

  lemma NumericFlips(a: bytes, b: bytes)
    ensures NumericCmp(a, b) == NumericCmp(b, a).Reverse()
  {
    hide Parse, Cmp, CmpBytes;
    if Parse(a).Some? && Parse(b).Some? {
      NumericLaws(a, b, b);
    } else {
      BytesLaws(a, b, b);
    }
  }

  /** A text that does not parse is compared as bytes, and equals only itself. */
  lemma WordCompares(a: bytes, w: bytes)
    requires Parse(a).Some? && Parse(w).None?
    ensures NumericCmp(a, w) != Greater <==> Lt(a, w)
    ensures NumericCmp(w, a) != Greater <==> Lt(w, a)
  {
    hide Parse, Cmp;
    LtTotal(a, w);
  }

  /** Two steps up and one down: only by a text between two numbers. */
  lemma NumericTriple(a: bytes, b: bytes, c: bytes)
    requires NumericCmp(a, b) != Greater && NumericCmp(b, c) != Greater && NumericCmp(a, c) == Greater
    ensures TextBetween(a, b, c) || TextBetween(b, c, a) || TextBetween(c, a, b)
  {
    hide Parse, Cmp, CmpBytes, NumericCmp;
    NumericFlips(a, c);
    if Parse(a).Some? && Parse(b).Some? && Parse(c).Some? {
      NumericLaws(a, b, c);
    } else if Parse(a).Some? && Parse(b).Some? {
      WordCompares(a, c);
      WordCompares(b, c);
    } else if Parse(b).Some? && Parse(c).Some? {
      WordCompares(b, a);
      WordCompares(c, a);
    } else if Parse(a).Some? && Parse(c).Some? {
      WordCompares(a, b);
      WordCompares(c, b);
    } else {
      WordsLaws(a, b, c);
    }
  }

  lemma WordsLaws(a: bytes, b: bytes, c: bytes)
    requires (Parse(a).None? && Parse(b).None?) || (Parse(b).None? && Parse(c).None?) || (Parse(a).None? && Parse(c).None?)
    ensures Laws(NumericCmp(a, b), NumericCmp(b, a), NumericCmp(b, c), NumericCmp(c, b), NumericCmp(a, c), NumericCmp(c, a))
  {
    hide Laws, Parse, CmpBytes;
    BytesLaws(a, b, c);
  }

  /** Without such a text among them, three texts obey the laws. */
  lemma NumericTextLaws(a: bytes, b: bytes, c: bytes)
    requires forall x, y, w :: x in {a, b, c} && y in {a, b, c} && w in {a, b, c} ==> !TextBetween(x, y, w)
    ensures Laws(NumericCmp(a, b), NumericCmp(b, a), NumericCmp(b, c), NumericCmp(c, b), NumericCmp(a, c), NumericCmp(c, a))
  {
    hide NumericCmp, TextBetween;
    NumericFlips(a, b);
    NumericFlips(b, c);
    NumericFlips(a, c);
    TripleTransitive(a, b, c);
    TripleTransitive(b, a, c);
    TripleTransitive(a, c, b);
    TripleTransitive(c, a, b);
    TripleTransitive(b, c, a);
    TripleTransitive(c, b, a);
  }

  lemma TripleTransitive(a: bytes, b: bytes, c: bytes)
    requires forall x, y, w :: x in {a, b, c} && y in {a, b, c} && w in {a, b, c} ==> !TextBetween(x, y, w)
    ensures NumericCmp(a, b) != Greater && NumericCmp(b, c) != Greater ==> NumericCmp(a, c) != Greater
  {
    hide NumericCmp, TextBetween;
    assert a in {a, b, c} && b in {a, b, c} && c in {a, b, c};
    if NumericCmp(a, b) != Greater && NumericCmp(b, c) != Greater && NumericCmp(a, c) == Greater {
      NumericTriple(a, b, c);
    }
  }

  ghost predicate NumericTransitiveOn(s: set<bytes>) {
    forall a, b, c :: a in s && b in s && c in s && NumericCmp(a, b) != Greater && NumericCmp(b, c) != Greater ==>
      NumericCmp(a, c) != Greater
  }

  ghost predicate NoTextBetween(s: set<bytes>) {
    forall a, b, w :: a in s && b in s && w in s ==> !TextBetween(a, b, w)
  }

  /** The order of NUMERIC texts is transitive on a set exactly when no text stands so between two numbers. */
  lemma NumericTextsExactly(s: set<bytes>)
    ensures NumericTransitiveOn(s) <==> NoTextBetween(s)
  {
    hide NumericCmp, TextBetween;
    if a, b, w :| a in s && b in s && w in s && TextBetween(a, b, w) {
      BetweenBreaks(a, b, w);
    } else {
      forall a, b, c | a in s && b in s && c in s && NumericCmp(a, b) != Greater && NumericCmp(b, c) != Greater
        ensures NumericCmp(a, c) != Greater
      {
        TripleTransitive(a, b, c);
      }
    }
  }

  /** The cycle: w before a, a not after b, b before w. */
  lemma BetweenBreaks(a: bytes, b: bytes, w: bytes)
    requires TextBetween(a, b, w)
    ensures NumericCmp(w, a) == Less && NumericCmp(a, b) != Greater && NumericCmp(b, w) == Less
    ensures NumericCmp(a, w) == Greater && NumericCmp(b, a) != Less && NumericCmp(w, b) == Greater
  {
    hide Parse, Cmp;
    NumericFlips(w, a);
    NumericFlips(b, w);
    NumericFlips(a, b);
  }

  // ---------------------------------------------------------------------------------------------
  // Such a text.

  const NINES: bytes := seq(20, _ => 57)

  /** 1e99999999999999999999: `parse::<f64>` reads it as infinity, so a NUMERIC column stores it; its exponent is no i64. */
  const HUGE: bytes := [49, 101] + NINES

  lemma NinesOverflow()
    ensures AllDigits(NINES) && Digits(NINES) > I64_MAX
  {
    DigitsBounds(NINES);
    assert Pow10(4) == 10_000;
    assert Pow10(7) == 1000 * Pow10(4);
    assert Pow10(10) == 1000 * Pow10(7);
    assert Pow10(13) == 1000 * Pow10(10);
    assert Pow10(16) == 1000 * Pow10(13);
    assert Pow10(19) == 1000 * Pow10(16);
  }

  lemma HugeExponent()
    ensures FindExponent(HUGE) == 1 && HUGE[2..] == NINES && ParseI64(NINES) == None
  {
    hide Digits;
    NinesOverflow();
    assert HUGE[0] == 49 && HUGE[1..][0] == 101 && NINES[0] == 57;
  }

  lemma HugeDoesNotParse()
    ensures Parse(HUGE) == None
  {
    hide ParseI64, FindExponent, Trim, ReadMantissa;
    HugeExponent();
    TrimPlain(HUGE);
    assert HUGE[0] == 49;
  }

  /** Nine and ten as numbers, and this text in between as bytes: 9 < 10 < 1e99999999999999999999 < 9. */
  lemma NumericTextCycle()
    ensures TextBetween([57], [49, 48], HUGE)
    ensures NumericCmp([57], [49, 48]) == Less && NumericCmp([49, 48], HUGE) == Less && NumericCmp(HUGE, [57]) == Less
  {
    HugeDoesNotParse();
    NineAndTen();
    hide Parse;
    assert Lt([49, 48], HUGE) by { assert HUGE[1..][0] == 101 && [49, 48][1..][0] == 48; }
    assert Lt(HUGE, [57]);
  }
}
