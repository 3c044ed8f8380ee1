/** Inputs at the edge of the top-N results: text keys along the key, and keys that compare as equal on the heap. */
module TopNWitnesses {
  import opened Basics
  import opened Bytes
  import opened Values
  import opened TupleCodec
  import opened KeyCodec
  import opened Keys
  import opened RowFormat
  import opened RowRoundTrip
  import opened Predicates
  import opened AggregateScan
  import opened TopNHeap
  import opened TopNOrder
  import opened TopNPlan
  import opened TopNScan
  import opened KeyScan
  import Decimal

  // ---------------------------------------------------------------------------------------------
  // Text keys.

  const KEY_COLUMN: seq<ColumnSchema> := [ColumnSchema(1, "k", TextType, false)]

  /** A table of one text column, its primary key, and a stored row of it. */
  function KeyTable(tableId: u32, tableEpoch: u64): TableSchema {
    TableSchema(tableId, 1, tableEpoch, "k", KEY_COLUMN)
  }

  function KeyRow(schema: TableSchema, s: text, mvcc: Mvcc): Record
    requires schema.columns == KEY_COLUMN
  {
    Record(RowKey(schema.tableId, schema.tableEpoch, Text(s)), EncodeRowValues(schema, [Text(s)], mvcc))
  }

  /** ORDER BY k LIMIT 2. */
  function FirstTwo(schema: TableSchema): TopNPlan {
    TopNPlan(schema, [], [0], [0], 0, Some(0), false, false, 0, 2)
  }

  lemma KeyRowDecodes(schema: TableSchema, s: text, mvcc: Mvcc)
    requires schema.columns == KEY_COLUMN && |s| < 100
    ensures DecodeRow(KEY_COLUMN, KeyRow(schema, s, mvcc).value).Ok?
    ensures DecodedRow(FirstTwo(schema), KeyRow(schema, s, mvcc).value)(0) == Text(s)
  {
    hide EncodeRowValues, DecodeRow;
    var values := [Text(s)];
    var parts := PayloadParts(KEY_COLUMN, values);
    assert |parts[0]| == 5 + |s|;
    assert |Concat(parts, 1)| == |Concat(parts, 0) + parts[0]|;
    DecodeStoredRow(schema, KEY_COLUMN, values, mvcc);
    assert Extended(values, 1) == values;
    RowOfValues(KEY_COLUMN, values, 1, 0);
  }

  lemma RankedRow(schema: TableSchema, s: text, mvcc: Mvcc)
    requires schema.columns == KEY_COLUMN && |s| < 100
    ensures Ranked(FirstTwo(schema), KeyRow(schema, s, mvcc).value)
    ensures RecordCandidate(FirstTwo(schema), KeyRow(schema, s, mvcc).value) == Candidate(Text(s), Text(s), KeyRow(schema, s, mvcc).value)
  {
    hide EncodeRowValues, DecodeRow, DecodedRow;
    KeyRowDecodes(schema, s, mvcc);
  }

  lemma TwoRowStream(plan: TopNPlan, x: bytes, y: bytes)
    requires plan.filters == []
    ensures MatchedStream(plan, [x, y]) == [RecordCandidate(plan, x), RecordCandidate(plan, y)]
  {
    hide DecodedRow, CandidateOf;
    assert [x, y][1..] == [y] && [y][1..] == [];
    assert MatchedStream(plan, []) == [];
    assert MatchedStream(plan, [y]) == [RecordCandidate(plan, y)] + [];
  }

  lemma KeyRowsOrdered(schema: TableSchema, mvcc: Mvcc, b: text, aa: text)
    requires schema.columns == KEY_COLUMN && b == [98] && aa == [97, 97]
    ensures KeyOrdered(FirstTwo(schema), [KeyRow(schema, b, mvcc), KeyRow(schema, aa, mvcc)])
  {
    hide EncodeRowValues, DecodeRow, DecodedRow, EncodeKey, TablePrefix, Bytes.Lt;
    KeyRowDecodes(schema, b, mvcc);
    KeyRowDecodes(schema, aa, mvcc);
    TextKeyOrder(b, aa);
    LtCommonPrefix(RowPrefix(schema.tableId, schema.tableEpoch), EncodeKey(Text(b)), EncodeKey(Text(aa)));
  }

  lemma FirstTwoReady(schema: TableSchema)
    requires schema.columns == KEY_COLUMN
    ensures ScanReady(FirstTwo(schema)) && TotallyOrdered(FirstTwo(schema))
  {
  }

  /** Rows b and aa, in key order: the scan along the key answers b, aa, and sorting by the key aa, b. */
  lemma TextKeysMisorder(tableId: u32, tableEpoch: u64, mvcc: Mvcc, b: text, aa: text)
    requires b == [98] && aa == [97, 97]
    ensures var schema := KeyTable(tableId, tableEpoch);
      var plan, x, y := FirstTwo(schema), KeyRow(schema, b, mvcc), KeyRow(schema, aa, mvcc);
      && ScanReady(plan) && TotallyOrdered(plan) && KeyOrdered(plan, [x, y]) && Ranked(plan, x.value) && Ranked(plan, y.value)
      && OrderedRows(plan, ScanOrder(plan, [x, y]), 2) == Ok([x.value, y.value])
      && SortedPage(plan, [x.value, y.value]) == [y.value, x.value]
  {
    hide ScanReady, TotallyOrdered, KeyOrdered, Ranked, OrderedRows, MatchedStream, SortBy, PartialCmp, RecordCandidate, KeyRow, DecodeRow;
    var schema := KeyTable(tableId, tableEpoch);
    var plan, x, y := FirstTwo(schema), KeyRow(schema, b, mvcc), KeyRow(schema, aa, mvcc);
    RankedRow(schema, b, mvcc);
    RankedRow(schema, aa, mvcc);
    KeyRowDecodes(schema, b, mvcc);
    KeyRowDecodes(schema, aa, mvcc);
    FirstTwoReady(schema);
    KeyRowsOrdered(schema, mvcc, b, aa);
    TwoRowStream(plan, x.value, y.value);
    TwoRowsScanned(plan, x, y);
    TextsCompare(b, aa);
    var c, d := RecordCandidate(plan, x.value), RecordCandidate(plan, y.value);
    SortedTwo(ValueComparator(false, false), c, d);
    assert RecordsOf([d, c]) == [y.value, x.value];
  }

  lemma TwoRowsScanned(plan: TopNPlan, x: Record, y: Record)
    requires ScanReady(plan) && plan.filters == [] && !plan.descending
    requires DecodeRow(plan.schema.columns, x.value).Ok? && DecodeRow(plan.schema.columns, y.value).Ok?
    ensures OrderedRows(plan, ScanOrder(plan, [x, y]), 2) == Ok([x.value, y.value])
  {
    hide ScanReady, OrderedRows, MatchedStream, RecordCandidate, DecodeRow, TakeFirst, RecordsOf;
    ScanOfTwo(plan, x, y);
    OrderedRowsExact(plan, [x.value, y.value], 2);
    TwoRowStream(plan, x.value, y.value);
    TwoRecords(plan, x.value, y.value);
  }

  lemma ScanOfTwo(plan: TopNPlan, x: Record, y: Record)
    requires !plan.descending
    ensures ScanOrder(plan, [x, y]) == [x.value, y.value]
  {
  }

  lemma TwoRecords(plan: TopNPlan, x: bytes, y: bytes)
    ensures TakeFirst(RecordsOf([RecordCandidate(plan, x), RecordCandidate(plan, y)]), 2) == [x, y]
  {
    hide DecodedRow;
    assert RecordsOf([RecordCandidate(plan, x), RecordCandidate(plan, y)]) == [x, y];
  }

  lemma TextsCompare(b: text, aa: text)
    requires b == [98] && aa == [97, 97]
    ensures PartialCmp(Text(b), Text(aa)) == Some(Greater)
  {
    assert Bytes.Lt(aa, b) && !Bytes.Lt(b, aa);
  }

  // ---------------------------------------------------------------------------------------------
  // Keys that compare as equal.

  /** The texts 1 and 1.0 are one number. */
  lemma OneAndOnePointZero()
    ensures Decimal.NumericCmp([49], [49, 46, 48]) == Equal && Decimal.NumericCmp([49, 46, 48], [49]) == Equal
  {
    hide Decimal.Parse;
    PlainOne();
    OnePointZero();
    LtIrreflexive([49]);
    assert Decimal.Pad([49], 1) == [49];
  }

  lemma PlainOne()
    ensures Decimal.Parse([49]) == Some(Decimal.NormalizedDecimal(1, [49], 0))
  {
    hide Decimal.Trim, Decimal.ReadNumeral;
    Decimal.TrimPlain([49]);
    Decimal.PlainNumeral([49]);
    assert Decimal.StripLeading([49]) == [49];
  }

  lemma OnePointZero()
    ensures Decimal.Parse([49, 46, 48]) == Some(Decimal.NormalizedDecimal(1, [49], 0))
  {
    hide Decimal.Trim, Decimal.ReadNumeral, Decimal.Normalize;
    Decimal.TrimPlain([49, 46, 48]);
    PointNumeral();
    PointNormal();
  }

  lemma PointNumeral()
    ensures Decimal.ReadNumeral([49, 46, 48]) == Some(Decimal.Numeral(1, [49, 48], 1))
  {
    hide Decimal.Digits;
    PointExponent();
    PointMantissa();
    var s: bytes := [49, 46, 48];
    assert s[..3] == s;
  }

  lemma PointExponent()
    ensures Decimal.FindExponent([49, 46, 48]) == 3
  {
    var s: bytes := [49, 46, 48];
    assert s[1..][0] == 46 && s[1..][1..][0] == 48 && s[1..][1..][1..] == [];
    assert Decimal.FindExponent(s[1..][1..]) == 1;
    assert Decimal.FindExponent(s[1..]) == 2;
  }

  lemma PointMantissa()
    ensures Decimal.ReadMantissa([49, 46, 48], false) == Some(Decimal.Mantissa([49, 48], 1))
  {
    var s: bytes := [49, 46, 48];
    assert s[1..][0] == 46 && s[1..][1..][0] == 48 && s[1..][1..][1..] == [];
    assert Decimal.ReadMantissa([], true) == Some(Decimal.Mantissa([], 0));
    assert [48] + [] == [48] && [49] + [48] == [49, 48];
    assert Decimal.ReadMantissa(s[1..][1..], true) == Some(Decimal.Mantissa([48], 1));
    assert Decimal.ReadMantissa(s[1..], false) == Some(Decimal.Mantissa([48], 1));
  }

  lemma PointNormal()
    ensures Decimal.Normalize(Decimal.Numeral(1, [49, 48], 1)) == Some(Decimal.NormalizedDecimal(1, [49], 0))
  {
    hide Decimal.Digits;
    assert Decimal.StripLeading([49, 48]) == [49, 48];
    assert [49, 48][..1] == [49];
    assert Decimal.StripTrailing([49], 0) == Some(([49], 0));
    assert Decimal.StripTrailing([49, 48], 1) == Some(([49], 0));
  }

  lemma PushedOne<C>(compare: Compare<C>, a: C)
    ensures Kept(compare, 2, [a]) == [a]
  {
    assert [a][..0] == [] && Kept(compare, 2, []) == [] && [] + [a] == [a];
  }

  lemma PushedTwo<C>(compare: Compare<C>, a: C, b: C)
    requires compare(b, a) == Greater
    ensures Kept(compare, 2, [a, b]) == [b, a]
  {
    hide WorstOf, SiftedDown;
    assert [a, b][..1] == [a] && [a] + [b] == [a, b];
    PushedOne(compare, a);
    SwapOfTwo(a, b);
  }

  lemma SwapOfTwo<C>(a: C, b: C)
    ensures Swap([a, b], 1, 0) == [b, a]
  {
  }

  /** Of a, b and c, the second after the others, which tie, the heap of two keeps c before a. */
  lemma HeapSwapsTies<C>(compare: Compare<C>, a: C, b: C, c: C)
    requires compare(b, a) == Greater && compare(c, b) == Less && compare(a, c) == Equal
    ensures Kept(compare, 2, [a, b, c]) == [c, a]
  {
    assert [a, b, c][..2] == [a, b];
    PushedTwo(compare, a, b);
    hide Kept, SiftedUp;
    assert [b, a][0 := c] == [c, a];
    assert WorstOf(compare, [c, a], 0) == 0;
    assert Pushed(compare, 2, [b, a], c) == [c, a];
    KeptThree(compare, a, b, c);
  }

  lemma KeptThree<C>(compare: Compare<C>, a: C, b: C, c: C)
    ensures Kept(compare, 2, [a, b, c]) == Pushed(compare, 2, Kept(compare, 2, [a, b]), c)
  {
    hide Pushed;
    assert [a, b, c][..2] == [a, b];
  }

  lemma SortedOne<C>(compare: Compare<C>, a: C)
    ensures SortBy(compare, [a]) == [a]
  {
    assert [a][1..] == [] && SortBy(compare, []) == [] && [a] + [] == [a];
  }

  /** Inserting into one candidate. */
  lemma InsertOne<C>(compare: Compare<C>, x: C, y: C)
    ensures InsertBy(compare, x, [y]) == if compare(x, y) != Greater then [x, y] else [y, x]
  {
    assert [y][1..] == [] && InsertBy(compare, x, []) == [x] + [] == [x] && [y] + [x] == [y, x] && [x] + [y] == [x, y];
  }

  lemma SortedTwo<C>(compare: Compare<C>, x: C, y: C)
    ensures SortBy(compare, [x, y]) == if compare(x, y) != Greater then [x, y] else [y, x]
  {
    hide InsertBy;
    assert [x, y][1..] == [y];
    SortedOne(compare, y);
    InsertOne(compare, x, y);
  }

  lemma StableSortOfThree<C>(compare: Compare<C>, a: C, b: C, c: C)
    requires compare(b, c) == Greater && compare(a, c) == Equal && compare(c, a) == Equal
    ensures SortBy(compare, [c, a]) == [c, a] && SortBy(compare, [a, b, c]) == [a, c, b]
  {
    hide SortBy;
    SortedTwo(compare, c, a);
    SortedTwo(compare, b, c);
    SortedThree(compare, a, b, c);
    assert InsertBy(compare, a, [c, b]) == [a] + [c, b];
  }

  lemma SortedThree<C>(compare: Compare<C>, a: C, b: C, c: C)
    ensures SortBy(compare, [a, b, c]) == InsertBy(compare, a, SortBy(compare, [b, c]))
  {
    hide InsertBy;
    assert [a, b, c][1..] == [b, c];
  }

  lemma TiesSwap<C>(compare: Compare<C>, a: C, b: C, c: C)
    requires compare(b, a) == Greater && compare(c, b) == Less && compare(b, c) == Greater
    requires compare(a, c) == Equal && compare(c, a) == Equal
    ensures SortBy(compare, Kept(compare, 2, [a, b, c])) == [c, a] && Page(SortBy(compare, [a, b, c]), 0, 2) == [a, c]
  {
    hide SortBy, Kept;
    HeapSwapsTies(compare, a, b, c);
    StableSortOfThree(compare, a, b, c);
    assert [a, c, b][0..] == [a, c, b] && [a, c, b][..2] == [a, c];
  }

  /**
   * Candidates in scan order, with order value and NUMERIC key (1, 1), (2, 3), (1, 1.0), of which two are wanted: the
   * heap answers the third before the first, a stable sort of all of them the first before the third.
   */
  lemma EqualKeysSwap(r0: bytes, r1: bytes, r2: bytes)
    ensures var a, b, c := Candidate(Int32(1), Numeric([49]), r0), Candidate(Int32(2), Numeric([51]), r1), Candidate(Int32(1), Numeric([49, 46, 48]), r2);
      var compare := ValueComparator(false, false);
      SortBy(compare, Kept(compare, 2, [a, b, c])) == [c, a] && Page(SortBy(compare, [a, b, c]), 0, 2) == [a, c]
  {
    hide CompareTopN, SortBy, Kept;
    var a, b, c := Candidate(Int32(1), Numeric([49]), r0), Candidate(Int32(2), Numeric([51]), r1), Candidate(Int32(1), Numeric([49, 46, 48]), r2);
    LaterRow(a, b);
    LaterRow(c, b);
    TiedRows(a, c);
    TiesSwap(ValueComparator(false, false), a, b, c);
  }

  lemma LaterRow(a: Candidate<ColumnValue>, b: Candidate<ColumnValue>)
    requires a.order == Int32(1) && b.order == Int32(2)
    ensures CompareTopN(b, a, false, false) == Greater && CompareTopN(a, b, false, false) == Less
  {
  }

  lemma TiedRows(a: Candidate<ColumnValue>, c: Candidate<ColumnValue>)
    requires a.order == c.order == Int32(1) && a.pk == Numeric([49]) && c.pk == Numeric([49, 46, 48])
    ensures CompareTopN(a, c, false, false) == Equal == CompareTopN(c, a, false, false)
  {
    hide Decimal.NumericCmp;
    OneAndOnePointZero();
  }
}
