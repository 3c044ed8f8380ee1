/** The order of top-N candidates, on column values and on slots, and when it is total. */
module TopNOrder {
  import opened Basics
  import opened Bytes
  import opened Floats
  import opened Values
  import opened TupleCodec
  import opened KeyCodec
  import opened FastNumericDecode
  import opened FastPredicates
  import opened SlotComparison
  import opened TopNHeap
  import opened OrderLaws
  import NumericOrder
  import Decimal

  /** A matching row: its order value, its primary key value, and the record it comes from. */
  datatype Candidate<V> = Candidate(order: V, pk: V, record: bytes)

  /** `partial_cmp(..).unwrap_or(Equal)`. */
  function OrEqual(o: Option<Ordering>): Ordering {
    if o.Some? then o.value else Equal
  }

  /** NULLs first or last whatever the direction; else the order of the values, in the direction. */
  function ByNulls(leftNull: bool, rightNull: bool, order: Ordering, descending: bool, nullsFirst: bool): Ordering {
    match (leftNull, rightNull)
    case (true, true) => Equal
    case (true, false) => if nullsFirst then Less else Greater
    case (false, true) => if nullsFirst then Greater else Less
    case (false, false) => if descending then order.Reverse() else order
  }

  function OrderValues(a: ColumnValue, b: ColumnValue, descending: bool, nullsFirst: bool): Ordering {
    ByNulls(a.Null?, b.Null?, OrEqual(PartialCmp(a, b)), descending, nullsFirst)
  }

  function OrderSlots(a: FastNumeric, b: FastNumeric, descending: bool, nullsFirst: bool): Ordering {
    ByNulls(a.NullSlot?, b.NullSlot?, OrEqual(FastCmp(a, b)), descending, nullsFirst)
  }

  /** `compare_topn_values`. */
  function CompareTopN(a: Candidate<ColumnValue>, b: Candidate<ColumnValue>, descending: bool, nullsFirst: bool): Ordering {
    Then(OrderValues(a.order, b.order, descending, nullsFirst), OrEqual(PartialCmp(a.pk, b.pk)))
  }

  /** `compare_fast_topn_values`. */
  function CompareFastTopN(a: Candidate<FastNumeric>, b: Candidate<FastNumeric>, descending: bool, nullsFirst: bool): Ordering {
    Then(OrderSlots(a.order, b.order, descending, nullsFirst), OrEqual(FastCmp(a.pk, b.pk)))
  }

  function ValueComparator(descending: bool, nullsFirst: bool): Compare<Candidate<ColumnValue>> {
    (a, b) => CompareTopN(a, b, descending, nullsFirst)
  }

  function SlotComparator(descending: bool, nullsFirst: bool): Compare<Candidate<FastNumeric>> {
    (a, b) => CompareFastTopN(a, b, descending, nullsFirst)
  }

  // ---------------------------------------------------------------------------------------------
  // Homogeneous columns.

  /** Kinds of columns whose non-null values are totally ordered. JSON and arrays are not among them. */
  predicate OrderableType(t: DataType) {
    FastNumericType(t) || t in {NumericType, TextType, BooleanType, DateType, TimestampType, TimestampTzType, UuidType, ByteaType}
  }

  /** What such a column stores: NULL, or its own variant, no NaN, and as NUMERIC a text that parses. */
  predicate Orderable(t: DataType, v: ColumnValue) {
    || (t == NumericType && v.Numeric? && Decimal.Parse(v.str).Some?)
    || (t == TextType && v.Text?)
    || (t == BooleanType && v.Boolean?)
    || (t == DateType && v.Date?)
    || (t == TimestampType && v.Timestamp?)
    || (t == TimestampTzType && v.TimestampTz?)
    || (t == UuidType && v.Uuid?)
    || (t == ByteaType && v.Bytea?)
    || Fits(t, v)
  }

  /** The number, or 0 or 1, that orders a value of a numeric or boolean column. */
  function Rank(v: ColumnValue): int {
    match v
    case Int16(x) => x
    case Int32(x) => x
    case Int64(x) => x
    case Float32(x) => Value32(x)
    case Float64(x) => Value64(x)
    case Boolean(x) => if x then 1 else 0
    case _ => 0
  }

  /** The bytes that order a value of any other column. */
  function Spelling(v: ColumnValue): bytes {
    match v
    case Bytea(x) => x
    case Text(x) => x
    case Date(x) => x
    case Timestamp(x) => x
    case TimestampTz(x) => x
    case Uuid(x) => x
    case _ => []
  }

  lemma PartialCmpIs(t: DataType, a: ColumnValue, b: ColumnValue)
    requires OrderableType(t) && t != NumericType && Orderable(t, a) && Orderable(t, b) && !a.Null? && !b.Null?
    ensures PartialCmp(a, b) == Some(
      if FastNumericType(t) || t == BooleanType then CompareInt(Rank(a), Rank(b)) else Decimal.CmpBytes(Spelling(a), Spelling(b)))
  {
    hide PartialCmp, Rank, Spelling;
    if FastNumericType(t) || t == BooleanType {
      NumbersCompare(a, b);
    } else {
      SpellingsCompare(a, b);
    }
  }

  lemma NumbersCompare(a: ColumnValue, b: ColumnValue)
    requires (a.Int16? && b.Int16?) || (a.Int32? && b.Int32?) || (a.Int64? && b.Int64?) || (a.Boolean? && b.Boolean?)
      || (a.Float32? && b.Float32? && !IsNaN32(a.bits32) && !IsNaN32(b.bits32))
      || (a.Float64? && b.Float64? && !IsNaN64(a.bits64) && !IsNaN64(b.bits64))
    ensures PartialCmp(a, b) == Some(CompareInt(Rank(a), Rank(b)))
  {
    hide Value32, Value64;
  }

  lemma SpellingsCompare(a: ColumnValue, b: ColumnValue)
    requires (a.Text? && b.Text?) || (a.Date? && b.Date?) || (a.Timestamp? && b.Timestamp?) || (a.TimestampTz? && b.TimestampTz?)
      || (a.Uuid? && b.Uuid?) || (a.Bytea? && b.Bytea?)
    ensures PartialCmp(a, b) == Some(Decimal.CmpBytes(Spelling(a), Spelling(b)))
  {
    hide Decimal.CmpBytes, ValidUtf8;
  }

  /** On non-null values of one orderable column, `partial_cmp` is a total preorder. */
  lemma PartialCmpLaws(t: DataType, a: ColumnValue, b: ColumnValue, c: ColumnValue)
    requires OrderableType(t) && Orderable(t, a) && Orderable(t, b) && Orderable(t, c) && !a.Null? && !b.Null? && !c.Null?
    ensures PartialCmp(a, b).Some? && PartialCmp(b, a).Some? && PartialCmp(b, c).Some? && PartialCmp(c, b).Some?
    ensures PartialCmp(a, c).Some? && PartialCmp(c, a).Some?
    ensures Laws(OrEqual(PartialCmp(a, b)), OrEqual(PartialCmp(b, a)), OrEqual(PartialCmp(b, c)), OrEqual(PartialCmp(c, b)),
      OrEqual(PartialCmp(a, c)), OrEqual(PartialCmp(c, a)))
  {
    hide Laws, PartialCmp, OrderableType, OrEqual, Orderable;
    if t == NumericType {
      NumericValue(a);
      NumericValue(b);
      NumericValue(c);
      NumericColumnLaws(a, b, c);
    } else {
      OtherColumnLaws(t, a, b, c);
    }
  }

  lemma NumericValue(v: ColumnValue)
    requires Orderable(NumericType, v) && !v.Null?
    ensures v.Numeric? && Decimal.Parse(v.str).Some?
  {
    hide Decimal.Parse;
  }

  lemma OtherColumnLaws(t: DataType, a: ColumnValue, b: ColumnValue, c: ColumnValue)
    requires OrderableType(t) && t != NumericType
    requires Orderable(t, a) && Orderable(t, b) && Orderable(t, c) && !a.Null? && !b.Null? && !c.Null?
    ensures PartialCmp(a, b).Some? && PartialCmp(b, a).Some? && PartialCmp(b, c).Some? && PartialCmp(c, b).Some?
    ensures PartialCmp(a, c).Some? && PartialCmp(c, a).Some?
    ensures Laws(OrEqual(PartialCmp(a, b)), OrEqual(PartialCmp(b, a)), OrEqual(PartialCmp(b, c)), OrEqual(PartialCmp(c, b)),
      OrEqual(PartialCmp(a, c)), OrEqual(PartialCmp(c, a)))
  {
    hide Laws, PartialCmp, Rank, Spelling, OrderableType, OrEqual, Orderable, FastNumericType;
    PartialCmpIs(t, a, b);
    PartialCmpIs(t, b, a);
    PartialCmpIs(t, b, c);
    PartialCmpIs(t, c, b);
    PartialCmpIs(t, a, c);
    PartialCmpIs(t, c, a);
    RankedLaws(a, b, c);
  }

  /** Numbers and byte strings obey the laws, whatever options they are read out of. */
  lemma RankedLaws(a: ColumnValue, b: ColumnValue, c: ColumnValue)
    ensures Laws(OrEqual(Some(CompareInt(Rank(a), Rank(b)))), OrEqual(Some(CompareInt(Rank(b), Rank(a)))),
      OrEqual(Some(CompareInt(Rank(b), Rank(c)))), OrEqual(Some(CompareInt(Rank(c), Rank(b)))),
      OrEqual(Some(CompareInt(Rank(a), Rank(c)))), OrEqual(Some(CompareInt(Rank(c), Rank(a)))))
    ensures Laws(OrEqual(Some(Decimal.CmpBytes(Spelling(a), Spelling(b)))), OrEqual(Some(Decimal.CmpBytes(Spelling(b), Spelling(a)))),
      OrEqual(Some(Decimal.CmpBytes(Spelling(b), Spelling(c)))), OrEqual(Some(Decimal.CmpBytes(Spelling(c), Spelling(b)))),
      OrEqual(Some(Decimal.CmpBytes(Spelling(a), Spelling(c)))), OrEqual(Some(Decimal.CmpBytes(Spelling(c), Spelling(a)))))
  {
    hide Laws, Rank, Spelling, Decimal.CmpBytes;
    IntLaws(Rank(a), Rank(b), Rank(c));
    BytesLaws(Spelling(a), Spelling(b), Spelling(c));
  }

  lemma NumericColumnLaws(a: ColumnValue, b: ColumnValue, c: ColumnValue)
    requires a.Numeric? && b.Numeric? && c.Numeric?
    requires Decimal.Parse(a.str).Some? && Decimal.Parse(b.str).Some? && Decimal.Parse(c.str).Some?
    ensures PartialCmp(a, b).Some? && PartialCmp(b, a).Some? && PartialCmp(b, c).Some? && PartialCmp(c, b).Some?
    ensures PartialCmp(a, c).Some? && PartialCmp(c, a).Some?
    ensures Laws(OrEqual(PartialCmp(a, b)), OrEqual(PartialCmp(b, a)), OrEqual(PartialCmp(b, c)), OrEqual(PartialCmp(c, b)),
      OrEqual(PartialCmp(a, c)), OrEqual(PartialCmp(c, a)))
  {
    hide Laws, Decimal.NumericCmp, Decimal.Parse;
    NumericOrder.NumericLaws(a.str, b.str, c.str);
  }

  /** Reversing and NULL placement keep the laws; they are needed only between values that are not NULL. */
  lemma ByNullsLaws(x: bool, y: bool, z: bool, xy: Ordering, yx: Ordering, yz: Ordering, zy: Ordering, xz: Ordering, zx: Ordering,
      d: bool, n: bool)
    requires !x && !y ==> xy == yx.Reverse()
    requires !y && !z ==> yz == zy.Reverse()
    requires !x && !z ==> xz == zx.Reverse()
    requires !x && !y && !z ==> Laws(xy, yx, yz, zy, xz, zx)
    ensures Laws(ByNulls(x, y, xy, d, n), ByNulls(y, x, yx, d, n), ByNulls(y, z, yz, d, n), ByNulls(z, y, zy, d, n),
      ByNulls(x, z, xz, d, n), ByNulls(z, x, zx, d, n))
  {
  }

  lemma PartialCmpFlips(t: DataType, a: ColumnValue, b: ColumnValue)
    requires OrderableType(t) && Orderable(t, a) && Orderable(t, b) && !a.Null? && !b.Null?
    ensures OrEqual(PartialCmp(a, b)) == OrEqual(PartialCmp(b, a)).Reverse()
  {
    hide PartialCmp, Orderable, OrderableType;
    PartialCmpLaws(t, a, b, a);
  }

  lemma OrderValuesLaws(t: DataType, a: ColumnValue, b: ColumnValue, c: ColumnValue, descending: bool, nullsFirst: bool)
    requires OrderableType(t) && Orderable(t, a) && Orderable(t, b) && Orderable(t, c)
    ensures var d, n := descending, nullsFirst;
      Laws(OrderValues(a, b, d, n), OrderValues(b, a, d, n), OrderValues(b, c, d, n), OrderValues(c, b, d, n),
        OrderValues(a, c, d, n), OrderValues(c, a, d, n))
  {
    hide PartialCmp, Orderable, OrderableType, Laws;
    if !a.Null? && !b.Null? { PartialCmpFlips(t, a, b); }
    if !b.Null? && !c.Null? { PartialCmpFlips(t, b, c); }
    if !a.Null? && !c.Null? { PartialCmpFlips(t, a, c); }
    if !a.Null? && !b.Null? && !c.Null? { PartialCmpLaws(t, a, b, c); }
    hide ByNulls;
    ByNullsLaws(a.Null?, b.Null?, c.Null?, OrEqual(PartialCmp(a, b)), OrEqual(PartialCmp(b, a)), OrEqual(PartialCmp(b, c)),
      OrEqual(PartialCmp(c, b)), OrEqual(PartialCmp(a, c)), OrEqual(PartialCmp(c, a)), descending, nullsFirst);
  }

  /** Ties on the order value broken by the primary key. */
  lemma ThenLaws(ab: Ordering, ba: Ordering, bc: Ordering, cb: Ordering, ac: Ordering, ca: Ordering,
      ab': Ordering, ba': Ordering, bc': Ordering, cb': Ordering, ac': Ordering, ca': Ordering)
    requires Laws(ab, ba, bc, cb, ac, ca) && Laws(ab', ba', bc', cb', ac', ca')
    ensures Then(ab, ab') == Then(ba, ba').Reverse()
    ensures Then(ab, ab') != Greater && Then(bc, bc') != Greater ==> Then(ac, ac') != Greater
  {
  }

  /** What a candidate holds as its key. */
  predicate KeyValue(pk: Option<DataType>, v: ColumnValue) {
    match pk
    case None => v.Null?
    case Some(p) => Orderable(p, v) && !v.Null?
  }

  /** A candidate of a table with an orderable order column and a primary key of an orderable kind, or with no key. */
  predicate GoodCandidate(t: DataType, pk: Option<DataType>, c: Candidate<ColumnValue>) {
    Orderable(t, c.order) && KeyValue(pk, c.pk)
  }

  function Good(t: DataType, pk: Option<DataType>): Candidate<ColumnValue> -> bool {
    c => GoodCandidate(t, pk, c)
  }

  predicate KeyType(pk: Option<DataType>) {
    pk.Some? ==> OrderableType(pk.value)
  }

  lemma KeyLaws(pk: Option<DataType>, a: ColumnValue, b: ColumnValue, c: ColumnValue)
    requires KeyType(pk) && KeyValue(pk, a) && KeyValue(pk, b) && KeyValue(pk, c)
    ensures Laws(OrEqual(PartialCmp(a, b)), OrEqual(PartialCmp(b, a)), OrEqual(PartialCmp(b, c)), OrEqual(PartialCmp(c, b)),
      OrEqual(PartialCmp(a, c)), OrEqual(PartialCmp(c, a)))
  {
    hide Laws, Orderable, OrderableType;
    if pk.Some? {
      PartialCmpLaws(pk.value, a, b, c);
    } else {
      IntLaws(0, 0, 0);
    }
  }

  lemma TopNTriple(t: DataType, pk: Option<DataType>, a: Candidate<ColumnValue>, b: Candidate<ColumnValue>, c: Candidate<ColumnValue>, d: bool, n: bool)
    requires OrderableType(t) && KeyType(pk) && GoodCandidate(t, pk, a) && GoodCandidate(t, pk, b) && GoodCandidate(t, pk, c)
    ensures CompareTopN(a, b, d, n) == CompareTopN(b, a, d, n).Reverse()
    ensures CompareTopN(a, b, d, n) != Greater && CompareTopN(b, c, d, n) != Greater ==> CompareTopN(a, c, d, n) != Greater
  {
    hide Laws, OrderValues, PartialCmp, Then, OrderableType, Orderable, KeyType;
    OrderValuesLaws(t, a.order, b.order, c.order, d, n);
    KeyLaws(pk, a.pk, b.pk, c.pk);
    ThenLaws(OrderValues(a.order, b.order, d, n), OrderValues(b.order, a.order, d, n), OrderValues(b.order, c.order, d, n),
      OrderValues(c.order, b.order, d, n), OrderValues(a.order, c.order, d, n), OrderValues(c.order, a.order, d, n),
      OrEqual(PartialCmp(a.pk, b.pk)), OrEqual(PartialCmp(b.pk, a.pk)), OrEqual(PartialCmp(b.pk, c.pk)),
      OrEqual(PartialCmp(c.pk, b.pk)), OrEqual(PartialCmp(a.pk, c.pk)), OrEqual(PartialCmp(c.pk, a.pk)));
  }

  /** The comparator is a total preorder on the candidates of homogeneous, NaN-free columns. */
  lemma TopNIsTotal(t: DataType, pk: Option<DataType>, d: bool, n: bool)
    requires OrderableType(t) && KeyType(pk)
    ensures TotalPreorder(ValueComparator(d, n), Good(t, pk))
  {
    hide CompareTopN, GoodCandidate, OrderableType, KeyType;
    var compare, good := ValueComparator(d, n), Good(t, pk);
    forall a, b | good(a) && good(b) ensures compare(a, b) == compare(b, a).Reverse() {
      TopNTriple(t, pk, a, b, b, d, n);
    }
    forall a, b, c | good(a) && good(b) && good(c) && compare(a, b) != Greater && compare(b, c) != Greater
      ensures compare(a, c) != Greater
    {
      TopNTriple(t, pk, a, b, c, d, n);
    }
  }

  // ---------------------------------------------------------------------------------------------
  // NaN.

  predicate IsNaN(v: ColumnValue) {
    (v.Float32? && IsNaN32(v.bits32)) || (v.Float64? && IsNaN64(v.bits64))
  }

  predicate IsNumber(v: ColumnValue) {
    !v.Null? && !IsNaN(v)
  }

  /** What a float column can hold, NaN included. */
  predicate FloatValue(t: DataType, v: ColumnValue) {
    v.Null? || (t == Float32Type && v.Float32?) || (t == Float64Type && v.Float64?)
  }

  lemma NaNComparesWithNothing(v: ColumnValue, w: ColumnValue)
    requires IsNaN(w)
    ensures PartialCmp(v, w) == None && PartialCmp(w, v) == None
  {
    hide Value32, Value64, IntToF32, IntToF64;
  }

  lemma NumberIsOrderable(t: DataType, v: ColumnValue)
    requires (t == Float32Type || t == Float64Type) && FloatValue(t, v)
    ensures OrderableType(t) && Orderable(t, if IsNaN(v) then Null else v)
  {
  }

  /** A NaN is where the law breaks: it ties with every number, so ties are not transitive. */
  lemma NaNBreaksTheOrder()
    ensures var nan, one, two := Float64(INF64 + 1), Float64(0x3FF0_0000_0000_0000), Float64(0x4000_0000_0000_0000);
      OrderValues(two, nan, false, false) == Equal == OrderValues(nan, one, false, false)
      && OrderValues(two, one, false, false) == Greater
  {
    MagMonotone(0x3FF0_0000_0000_0000, 0x4000_0000_0000_0000);
  }

  ghost predicate TransitiveOn(s: set<ColumnValue>, d: bool, n: bool) {
    forall a, b, c :: a in s && b in s && c in s && OrderValues(a, b, d, n) != Greater && OrderValues(b, c, d, n) != Greater ==>
      OrderValues(a, c, d, n) != Greater
  }

  /** A NaN stands beside two numbers, the first less than the second. */
  predicate NaNBesideTwo(nan: ColumnValue, x: ColumnValue, y: ColumnValue) {
    IsNaN(nan) && IsNumber(x) && IsNumber(y) && PartialCmp(x, y) == Some(Less)
  }

  /**
   * The order of a float column's values is transitive on a set of them, in either direction and with NULLs on
   * either side, exactly when the set holds no NaN beside two different numbers.
   */
  lemma NaNOrderExactly(t: DataType, s: set<ColumnValue>, d: bool, n: bool)
    requires (t == Float32Type || t == Float64Type) && forall v :: v in s ==> FloatValue(t, v)
    ensures TransitiveOn(s, d, n) <==> !exists nan, x, y :: nan in s && x in s && y in s && NaNBesideTwo(nan, x, y)
  {
    hide PartialCmp, IsNaN, FloatValue, OrderValues;
    if nan, x, y :| nan in s && x in s && y in s && NaNBesideTwo(nan, x, y) {
      NaNTies(t, nan, x, y, d, n);
    } else {
      forall a, b, c | a in s && b in s && c in s && OrderValues(a, b, d, n) != Greater && OrderValues(b, c, d, n) != Greater
        ensures OrderValues(a, c, d, n) != Greater
      {
        if IsNaN(a) || IsNaN(b) || IsNaN(c) {
          forall x, y | x in s && y in s && IsNumber(x) && IsNumber(y) ensures PartialCmp(x, y) != Some(Less) {
            assert !NaNBesideTwo(if IsNaN(a) then a else if IsNaN(b) then b else c, x, y);
          }
          AllTie(t, a, b, d, n);
          AllTie(t, b, c, d, n);
          AllTie(t, a, c, d, n);
          NullsAreTransitive(a.Null?, b.Null?, c.Null?, d, n);
        } else {
          NumberIsOrderable(t, a);
          NumberIsOrderable(t, b);
          NumberIsOrderable(t, c);
          OrderValuesLaws(t, a, b, c, d, n);
        }
      }
    }
  }

  lemma NaNTies(t: DataType, nan: ColumnValue, x: ColumnValue, y: ColumnValue, d: bool, n: bool)
    requires (t == Float32Type || t == Float64Type) && FloatValue(t, x) && FloatValue(t, y) && NaNBesideTwo(nan, x, y)
    ensures var (a, c) := if d then (x, y) else (y, x);
      OrderValues(a, nan, d, n) == Equal == OrderValues(nan, c, d, n) && OrderValues(a, c, d, n) == Greater
  {
    hide PartialCmp, FloatValue, Orderable, OrderableType;
    NaNComparesWithNothing(x, nan);
    NaNComparesWithNothing(y, nan);
    NumberIsOrderable(t, x);
    NumberIsOrderable(t, y);
    PartialCmpFlips(t, x, y);
    PartialCmpLaws(t, x, y, x);
  }

  /** Where no number is less than another, two values differ at most in being NULL. */
  lemma AllTie(t: DataType, a: ColumnValue, b: ColumnValue, d: bool, n: bool)
    requires (t == Float32Type || t == Float64Type) && FloatValue(t, a) && FloatValue(t, b)
    requires IsNumber(a) && IsNumber(b) ==> PartialCmp(a, b) != Some(Less) && PartialCmp(b, a) != Some(Less)
    ensures OrderValues(a, b, d, n) == ByNulls(a.Null?, b.Null?, Equal, d, n)
  {
    hide PartialCmp, FloatValue, Orderable, OrderableType;
    if IsNumber(a) && IsNumber(b) {
      NumberIsOrderable(t, a);
      NumberIsOrderable(t, b);
      PartialCmpLaws(t, a, b, a);
      PartialCmpFlips(t, a, b);
    } else {
      if IsNaN(b) { NaNComparesWithNothing(a, b); }
      if IsNaN(a) { NaNComparesWithNothing(b, a); }
    }
  }

  lemma NullsAreTransitive(x: bool, y: bool, z: bool, d: bool, n: bool)
    ensures ByNulls(x, y, Equal, d, n) != Greater && ByNulls(y, z, Equal, d, n) != Greater ==> ByNulls(x, z, Equal, d, n) != Greater
  {
  }

  // ---------------------------------------------------------------------------------------------
  // NUMERIC texts that do not parse.

  /** What a NUMERIC column can hold, texts that do not parse included. */
  predicate NumericText(v: ColumnValue) {
    v.Null? || v.Numeric?
  }

  predicate TextBetween(a: ColumnValue, b: ColumnValue, w: ColumnValue) {
    a.Numeric? && b.Numeric? && w.Numeric? && NumericOrder.TextBetween(a.str, b.str, w.str)
  }

  /**
   * The order of a NUMERIC column's values is transitive on a set of them, in either direction and with NULLs on
   * either side, exactly when no text that does not parse lies, as bytes, between two that parse: after one and
   * before another that is no greater as a number.
   */
  lemma NumericOrderExactly(s: set<ColumnValue>, d: bool, n: bool)
    requires forall v :: v in s ==> NumericText(v)
    ensures TransitiveOn(s, d, n) <==> !exists a, b, w :: a in s && b in s && w in s && TextBetween(a, b, w)
  {
    hide OrderValues, TextBetween;
    if a, b, w :| a in s && b in s && w in s && TextBetween(a, b, w) {
      TextBreaksOrder(a, b, w, d, n);
    } else {
      forall a, b, c | a in s && b in s && c in s && OrderValues(a, b, d, n) != Greater && OrderValues(b, c, d, n) != Greater
        ensures OrderValues(a, c, d, n) != Greater
      {
        NumericValuesLaws(a, b, c, d, n);
      }
    }
  }

  lemma TextBreaksOrder(a: ColumnValue, b: ColumnValue, w: ColumnValue, d: bool, n: bool)
    requires TextBetween(a, b, w)
    ensures var (x, y, z) := if d then (b, a, w) else (w, a, b);
      OrderValues(x, y, d, n) != Greater && OrderValues(y, z, d, n) != Greater && OrderValues(x, z, d, n) == Greater
  {
    hide NumericOrder.TextBetween, Decimal.NumericCmp;
    NumericOrder.BetweenBreaks(a.str, b.str, w.str);
  }

  lemma NumericValuesLaws(a: ColumnValue, b: ColumnValue, c: ColumnValue, d: bool, n: bool)
    requires NumericText(a) && NumericText(b) && NumericText(c)
    requires forall x, y, w :: x in {a, b, c} && y in {a, b, c} && w in {a, b, c} ==> !TextBetween(x, y, w)
    ensures OrderValues(a, b, d, n) != Greater && OrderValues(b, c, d, n) != Greater ==> OrderValues(a, c, d, n) != Greater
  {
    hide NumericOrder.TextBetween, Decimal.NumericCmp, ByNulls, Laws;
    if a.Numeric? && b.Numeric? { NumericOrder.NumericFlips(a.str, b.str); }
    if b.Numeric? && c.Numeric? { NumericOrder.NumericFlips(b.str, c.str); }
    if a.Numeric? && c.Numeric? { NumericOrder.NumericFlips(a.str, c.str); }
    if a.Numeric? && b.Numeric? && c.Numeric? {
      forall x, y, w | x in {a.str, b.str, c.str} && y in {a.str, b.str, c.str} && w in {a.str, b.str, c.str}
        ensures !NumericOrder.TextBetween(x, y, w)
      {
        assert a in {a, b, c} && b in {a, b, c} && c in {a, b, c};
        assert !TextBetween(Numeric(x), Numeric(y), Numeric(w));
      }
      NumericOrder.NumericTextLaws(a.str, b.str, c.str);
    }
    ByNullsLaws(a.Null?, b.Null?, c.Null?, OrEqual(PartialCmp(a, b)), OrEqual(PartialCmp(b, a)), OrEqual(PartialCmp(b, c)),
      OrEqual(PartialCmp(c, b)), OrEqual(PartialCmp(a, c)), OrEqual(PartialCmp(c, a)), d, n);
    LawsTransitive(OrderValues(a, b, d, n), OrderValues(b, a, d, n), OrderValues(b, c, d, n), OrderValues(c, b, d, n),
      OrderValues(a, c, d, n), OrderValues(c, a, d, n));
  }

  lemma LawsTransitive(ab: Ordering, ba: Ordering, bc: Ordering, cb: Ordering, ac: Ordering, ca: Ordering)
    requires Laws(ab, ba, bc, cb, ac, ca)
    ensures ab != Greater && bc != Greater ==> ac != Greater
  {
  }

  // ---------------------------------------------------------------------------------------------
  // Slots order candidates as values do.

  /** On the slots of numeric columns, the fast comparator gives the same order. */
  lemma FastTopNAgrees(t: DataType, pk: Option<DataType>, a: Candidate<ColumnValue>, b: Candidate<ColumnValue>,
      x: Candidate<FastNumeric>, y: Candidate<FastNumeric>, d: bool, n: bool)
    requires FastNumericType(t) && (pk.Some? ==> FastNumericType(pk.value)) && GoodCandidate(t, pk, a) && GoodCandidate(t, pk, b)
    requires NumericView(a.order) == Some(x.order) && NumericView(b.order) == Some(y.order)
    requires NumericView(a.pk) == Some(x.pk) && NumericView(b.pk) == Some(y.pk)
    ensures CompareFastTopN(x, y, d, n) == CompareTopN(a, b, d, n)
  {
    hide PartialCmp, FastCmp, Fits, OwnVariant, NumericView, FastNumericType, Orderable;
    OrderableFits(t, a.order);
    OrderableFits(t, b.order);
    SlotOrderAgrees(t, a.order, b.order);
    if pk.Some? {
      OrderableFits(pk.value, a.pk);
      OrderableFits(pk.value, b.pk);
      SlotOrderAgrees(pk.value, a.pk, b.pk);
    } else {
      NullViews(a.pk);
      NullViews(b.pk);
      NullComparesToNothing(b.pk, y.pk);
    }
  }

  lemma OrderableFits(t: DataType, v: ColumnValue)
    requires FastNumericType(t) && Orderable(t, v)
    ensures Fits(t, v)
  {
  }

  lemma NullComparesToNothing(v: ColumnValue, x: FastNumeric)
    ensures PartialCmp(Null, v) == None && FastCmp(NullSlot, x) == None
  {
  }

  lemma SlotOrderAgrees(t: DataType, a: ColumnValue, b: ColumnValue)
    requires FastNumericType(t) && Fits(t, a) && Fits(t, b) && NumericView(a).Some? && NumericView(b).Some?
    ensures OrEqual(FastCmp(NumericView(a).value, NumericView(b).value)) == OrEqual(PartialCmp(a, b))
    ensures NumericView(a).value.NullSlot? <==> a.Null?
    ensures NumericView(b).value.NullSlot? <==> b.Null?
  {
    hide Widen, Value32, Value64, IntToF64, IntToF32;
    if !a.Null? && !b.Null? {
      SameOrderCmp(t, a, b);
    }
  }
}
