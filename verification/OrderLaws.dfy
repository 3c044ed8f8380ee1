/** The laws of a total preorder, for one triple, and how lexicographic comparison keeps them. */
module OrderLaws {
  import opened Basics
  import opened Bytes
  import Decimal

  /** The three laws of a total preorder, for one triple. */
  predicate Laws(ab: Ordering, ba: Ordering, bc: Ordering, cb: Ordering, ac: Ordering, ca: Ordering) {
    && ab == ba.Reverse() && bc == cb.Reverse() && ac == ca.Reverse()
    && (ab != Greater && bc != Greater ==> ac != Greater)
    && (ba != Greater && ac != Greater ==> bc != Greater)
    && (ac != Greater && cb != Greater ==> ab != Greater)
    && (ca != Greater && ab != Greater ==> cb != Greater)
    && (bc != Greater && ca != Greater ==> ba != Greater)
    && (cb != Greater && ba != Greater ==> ca != Greater)
  }

  /** The second order decides where the first one ties. */
  function Then(a: Ordering, b: Ordering): Ordering {
    if a != Equal then a else b
  }

  lemma IntLaws(a: int, b: int, c: int)
    ensures Laws(CompareInt(a, b), CompareInt(b, a), CompareInt(b, c), CompareInt(c, b), CompareInt(a, c), CompareInt(c, a))
  {
  }

  lemma BytesLaws(a: bytes, b: bytes, c: bytes)
    ensures Laws(Decimal.CmpBytes(a, b), Decimal.CmpBytes(b, a), Decimal.CmpBytes(b, c), Decimal.CmpBytes(c, b),
      Decimal.CmpBytes(a, c), Decimal.CmpBytes(c, a))
  {
    LtTotal(a, b);
    LtTotal(b, c);
    LtTotal(a, c);
    LeLtTransitive(a, b, c);
    LeLtTransitive(b, a, c);
    LeLtTransitive(a, c, b);
    LeLtTransitive(c, a, b);
    LeLtTransitive(b, c, a);
    LeLtTransitive(c, b, a);
  }

  /** A number first and then another order: that one needs the laws only among values with the same number. */
  lemma LexLaws(x: int, y: int, z: int, ab: Ordering, ba: Ordering, bc: Ordering, cb: Ordering, ac: Ordering, ca: Ordering)
    requires x == y ==> ab == ba.Reverse()
    requires y == z ==> bc == cb.Reverse()
    requires x == z ==> ac == ca.Reverse()
    requires x == y == z ==> Laws(ab, ba, bc, cb, ac, ca)
    ensures Laws(Then(CompareInt(x, y), ab), Then(CompareInt(y, x), ba), Then(CompareInt(y, z), bc), Then(CompareInt(z, y), cb),
      Then(CompareInt(x, z), ac), Then(CompareInt(z, x), ca))
  {
  }

  /** Reversing an order keeps the laws. */
  lemma ReversedLaws(ab: Ordering, ba: Ordering, bc: Ordering, cb: Ordering, ac: Ordering, ca: Ordering)
    requires Laws(ab, ba, bc, cb, ac, ca)
    ensures Laws(ba, ab, cb, bc, ca, ac)
  {
  }
}
