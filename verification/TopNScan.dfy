/** Top-N scans: on projected values, on numeric slots, and along the primary key; all three return the same rows. */
module TopNScan {
  import opened Basics
  import opened Bytes
  import opened Values
  import opened TupleCodec
  import opened KeyCodec
  import opened Keys
  import opened RowFormat
  import opened RowProjection
  import opened RowMapProjection
  import opened FastNumericDecode
  import opened RowDecoder
  import opened Predicates
  import opened FastPredicates
  import opened SlotComparison
  import opened Grouping
  import opened GroupKeys
  import opened AggregateScan
  import opened AggregateAgreement
  import opened TopNHeap
  import opened TopNTies
  import opened TopNOrder
  import opened TopNPlan

  /** `fetch.saturating_add(skip)`. */
  function Window(plan: TopNPlan): nat {
    if plan.fetch + plan.skip < 0x1_0000_0000_0000_0000 then plan.fetch + plan.skip else 0xFFFF_FFFF_FFFF_FFFF
  }

  // ---------------------------------------------------------------------------------------------
  // The scans as streams of candidates.

  /** `scan_value`, by the positions of the scanned columns. */
  function ScannedRow(plan: TopNPlan, values: Tuple): Row {
    (c: nat) =>
      match SlotOf(ColumnSlots(|plan.schema.columns|, plan.scanIndices, |plan.scanIndices|), c)
      case None => Null
      case Some(s) => if s < |values| then values[s] else Null
  }

  function CandidateOf(plan: TopNPlan, row: Row, record: bytes): Candidate<ColumnValue> {
    Candidate(row(plan.orderIdx), if plan.pkIdx.Some? then row(plan.pkIdx.value) else Null, record)
  }

  function Prepend<T>(before: seq<T>, rest: Result<seq<T>>): Result<seq<T>> {
    match rest
    case Err => Err
    case Ok(s) => Ok(before + s)
  }

  /** The candidates that `execute_topn_scan` pushes, in scan order. */
  function GeneralStream(plan: TopNPlan, records: seq<bytes>): Result<seq<Candidate<ColumnValue>>> {
    if records == [] then Ok([])
    else
      match Project(plan.schema.columns, plan.scanIndices, records[0])
      case Err => Err
      case Ok(values) =>
        var row := ScannedRow(plan, values);
        Prepend(if AllMatch(plan.filters, row) then [CandidateOf(plan, row, records[0])] else [], GeneralStream(plan, records[1..]))
  }

  function SlotCandidate(fp: FastTopN, values: seq<FastNumeric>, record: bytes): Candidate<FastNumeric> {
    Candidate(SlotAt(values, fp.orderSlot), if fp.pkSlot.Some? then SlotAt(values, fp.pkSlot.value) else NullSlot, record)
  }

  /** The candidates that `execute_topn_fast_scan` pushes, one buffer for all records. */
  function FastStream(plan: TopNPlan, fp: FastTopN, records: seq<bytes>, buffer: seq<FastNumeric>): Result<seq<Candidate<FastNumeric>>>
    decreases |records|
  {
    if records == [] then Ok([])
    else
      match FastDecode(plan.schema.columns, fp.required, records[0], fp.filterSlots, buffer)
      case Err => Err
      case Ok(b1) =>
        if !SlotMatches(fp.filter, b1) then FastStream(plan, fp, records[1..], b1)
        else
          match FastDecode(plan.schema.columns, fp.required, records[0], fp.candidateSlots, b1)
          case Err => Err
          case Ok(b2) => Prepend([SlotCandidate(fp, b2, records[0])], FastStream(plan, fp, records[1..], b2))
  }

  /** The records that `execute_primary_key_ordered_topn_scan` collects before it stops, `n` at most. */
  function OrderedRows(plan: TopNPlan, records: seq<bytes>, n: nat): Result<seq<bytes>>
    requires n > 0
    decreases |records|
  {
    if records == [] then Ok([])
    else if ProjectRow(plan.schema.columns, plan.outputIndices, records[0]).Err? then Err
    else
      var values := Project(plan.schema.columns, plan.scanIndices, records[0]);
      if plan.filters != [] && values.Err? then Err
      else if plan.filters != [] && !AllMatch(plan.filters, ScannedRow(plan, values.value)) then OrderedRows(plan, records[1..], n)
      else if n == 1 then Ok([records[0]])
      else Prepend([records[0]], OrderedRows(plan, records[1..], n - 1))
  }

  function RecordsOf<V>(candidates: seq<Candidate<V>>): (r: seq<bytes>)
    ensures |r| == |candidates|
  {
    seq(|candidates|, i requires 0 <= i < |candidates| => candidates[i].record)
  }

  /** The rows that a heap scan selects from its stream. */
  function Selected<V>(plan: TopNPlan, compare: Compare<Candidate<V>>, stream: seq<Candidate<V>>): seq<bytes> {
    RecordsOf(Page(SortBy(compare, Kept(compare, Window(plan), stream)), plan.skip, plan.fetch))
  }

  // ---------------------------------------------------------------------------------------------
  // The scans as loops.

  lemma KeptAppend<C>(compare: Compare<C>, window: nat, s: seq<C>, c: C)
    ensures Kept(compare, window, s + [c]) == Pushed(compare, window, Kept(compare, window, s), c)
  {
    assert (s + [c])[..|s|] == s;
  }

  lemma PrependTwice<T>(a: seq<T>, b: seq<T>, rest: Result<seq<T>>)
    ensures Prepend(a, Prepend(b, rest)) == Prepend(a + b, rest)
    ensures Prepend([], rest) == rest && (rest == Ok([]) ==> Prepend(a, rest) == Ok(a))
  {
    if rest.Ok? {
      assert a + (b + rest.value) == a + b + rest.value;
      assert [] + rest.value == rest.value && a + [] == a;
    }
  }

  method ExecuteTopNScan(plan: TopNPlan, records: seq<bytes>) returns (r: Result<seq<bytes>>)
    ensures r == match GeneralStream(plan, records)
      case Err => Err
      case Ok(stream) => Ok(Selected(plan, ValueComparator(plan.descending, plan.nullsFirst), stream))
  {
    hide Project, AllMatch, ScannedRow, Kept, Pushed;
    var compare := ValueComparator(plan.descending, plan.nullsFirst);
    var candidates := new Candidates(compare, Window(plan));
    ghost var pushed: seq<Candidate<ColumnValue>> := [];
    var i := 0;
    assert records[0..] == records;
    PrependTwice([], [], GeneralStream(plan, records));
    assert Kept(compare, Window(plan), []) == [] by { KeptNothing(compare, Window(plan)); }
    while i < |records|
      invariant 0 <= i <= |records| && fresh(candidates)
      invariant candidates.compare == compare && candidates.window == Window(plan)
      invariant candidates.heap == Kept(compare, Window(plan), pushed)
      invariant GeneralStream(plan, records) == Prepend(pushed, GeneralStream(plan, records[i..]))
    {
      assert records[i..][1..] == records[i + 1..];
      var values := Project(plan.schema.columns, plan.scanIndices, records[i]);
      if values.Err? { return Err; }
      var row := ScannedRow(plan, values.value);
      if AllMatch(plan.filters, row) {
        var c := CandidateOf(plan, row, records[i]);
        PrependTwice(pushed, [c], GeneralStream(plan, records[i + 1..]));
        KeptAppend(compare, Window(plan), pushed, c);
        candidates.Push(c);
        pushed := pushed + [c];
      } else {
        PrependTwice(pushed, [], GeneralStream(plan, records[i + 1..]));
      }
      i := i + 1;
    }
    PrependTwice(pushed, [], Ok([]));
    var sorted := SortBy(compare, candidates.heap);
    r := Ok(RecordsOf(Page(sorted, plan.skip, plan.fetch)));
  }

  lemma KeptNothing<C>(compare: Compare<C>, window: nat)
    ensures Kept(compare, window, []) == []
  {
  }

  method ExecuteTopNFastScan(plan: TopNPlan, fp: FastTopN, records: seq<bytes>) returns (r: Result<seq<bytes>>)
    ensures r == match FastStream(plan, fp, records, NullSlots(|fp.required|))
      case Err => Err
      case Ok(stream) => Ok(Selected(plan, SlotComparator(plan.descending, plan.nullsFirst), stream))
  {
    hide FastDecode, SlotMatches, Kept, Pushed, SlotCandidate;
    var compare := SlotComparator(plan.descending, plan.nullsFirst);
    var candidates := new Candidates(compare, Window(plan));
    var projector := NewProjector(plan.schema.columns, fp.required);
    var values := new FastNumeric[|fp.required|](_ => NullSlot);
    assert values[..] == NullSlots(|fp.required|);
    ghost var pushed: seq<Candidate<FastNumeric>> := [];
    var i := 0;
    assert records[0..] == records;
    PrependTwice([], [], FastStream(plan, fp, records, NullSlots(|fp.required|)));
    KeptNothing(compare, Window(plan));
    while i < |records|
      invariant 0 <= i <= |records| && fresh(candidates) && fresh(values)
      invariant candidates.compare == compare && candidates.window == Window(plan)
      invariant candidates.heap == Kept(compare, Window(plan), pushed)
      invariant FastStream(plan, fp, records, NullSlots(|fp.required|)) == Prepend(pushed, FastStream(plan, fp, records[i..], values[..]))
    {
      assert records[i..][1..] == records[i + 1..];
      var ok := DecodeFastNumericSlots(plan.schema.columns, fp.required, projector, records[i], fp.filterSlots, values);
      if !ok { return Err; }
      if SlotMatches(fp.filter, values[..]) {
        ok := DecodeFastNumericSlots(plan.schema.columns, fp.required, projector, records[i], fp.candidateSlots, values);
        if !ok { return Err; }
        var c := SlotCandidate(fp, values[..], records[i]);
        PrependTwice(pushed, [c], FastStream(plan, fp, records[i + 1..], values[..]));
        KeptAppend(compare, Window(plan), pushed, c);
        candidates.Push(c);
        pushed := pushed + [c];
      }
      i := i + 1;
    }
    PrependTwice(pushed, [], Ok([]));
    var sorted := SortBy(compare, candidates.heap);
    r := Ok(RecordsOf(Page(sorted, plan.skip, plan.fetch)));
  }

  /** `records` in scan order: ascending by key, or descending for a descending plan. */
  method ExecutePrimaryKeyOrderedScan(plan: TopNPlan, records: seq<bytes>) returns (r: Result<seq<bytes>>)
    ensures r ==
      if Window(plan) == 0 then Ok([])
      else match OrderedRows(plan, records, Window(plan))
           case Err => Err
           case Ok(rows) => Ok(Page(rows, plan.skip, plan.fetch))
  {
    hide Project, ProjectRow, AllMatch, ScannedRow;
    var window := Window(plan);
    if window == 0 {
      return Ok([]);
    }
    var rows, i := [], 0;
    assert records[0..] == records;
    PrependTwice([], [], OrderedRows(plan, records, window));
    while i < |records| && |rows| < window
      invariant 0 <= i <= |records| && |rows| <= window
      invariant |rows| < window ==> OrderedRows(plan, records, window) == Prepend(rows, OrderedRows(plan, records[i..], window - |rows|))
      invariant |rows| == window ==> OrderedRows(plan, records, window) == Ok(rows)
    {
      assert records[i..][1..] == records[i + 1..];
      if ProjectRow(plan.schema.columns, plan.outputIndices, records[i]).Err? { return Err; }
      var matched := true;
      if plan.filters != [] {
        var values := Project(plan.schema.columns, plan.scanIndices, records[i]);
        if values.Err? { return Err; }
        matched := AllMatch(plan.filters, ScannedRow(plan, values.value));
      }
      if matched {
        if |rows| + 1 < window {
          PrependTwice(rows, [records[i]], OrderedRows(plan, records[i + 1..], window - |rows| - 1));
        }
        rows := rows + [records[i]];
      }
      i := i + 1;
    }
    if |rows| < window {
      PrependTwice(rows, [], Ok([]));
    }
    r := Ok(Page(rows, plan.skip, plan.fetch));
  }

  // ---------------------------------------------------------------------------------------------
  // What the scans agree on.

  /** A record's row: every column of the full decode. */
  function DecodedRow(plan: TopNPlan, record: bytes): Row {
    match DecodeRow(plan.schema.columns, record)
    case Err => (_: nat) => Null
    case Ok(row) => RowOfMap(plan.schema.columns, row)
  }

  /** The candidates of the matching rows, in order, from full decodes. */
  function MatchedStream(plan: TopNPlan, records: seq<bytes>): seq<Candidate<ColumnValue>> {
    if records == [] then []
    else
      var row := DecodedRow(plan, records[0]);
      (if AllMatch(plan.filters, row) then [CandidateOf(plan, row, records[0])] else []) + MatchedStream(plan, records[1..])
  }

  /** The answer by definition: sort all matching rows, skip, take. */
  function SortedPage(plan: TopNPlan, records: seq<bytes>): seq<bytes> {
    RecordsOf(Page(SortBy(ValueComparator(plan.descending, plan.nullsFirst), MatchedStream(plan, records)), plan.skip, plan.fetch))
  }

  /** Distinct ids and names, and a scan that reads the order column, the key and the filters' columns. */
  ghost predicate ScanReady(plan: TopNPlan) {
    var columns := plan.schema.columns;
    && DistinctIds(columns) && DistinctNames(columns)
    && DistinctInRange(columns, plan.scanIndices) && DistinctInRange(columns, plan.outputIndices)
    && plan.orderIdx in plan.scanIndices && (plan.pkIdx.Some? ==> plan.pkIdx.value in plan.scanIndices)
    && forall i :: 0 <= i < |plan.filters| ==> ReadsOnly(plan.filters[i], plan.scanIndices)
  }

  function KeyTypeOf(plan: TopNPlan): Option<DataType> {
    if plan.pkIdx.Some? && plan.pkIdx.value < |plan.schema.columns| then Some(StoredKind(plan.schema.columns[plan.pkIdx.value].dataType)) else None
  }

  /** The kind of values that the order column stores. */
  function OrderKindOf(plan: TopNPlan): DataType {
    if plan.orderIdx < |plan.schema.columns| then StoredKind(plan.schema.columns[plan.orderIdx].dataType) else JsonType
  }

  /** An order column of a totally ordered kind, and a primary key of one, if there is a key. */
  ghost predicate TotallyOrdered(plan: TopNPlan) {
    && plan.orderIdx < |plan.schema.columns| && OrderableType(OrderKindOf(plan))
    && (plan.pkIdx.Some? ==> plan.pkIdx.value < |plan.schema.columns|) && KeyType(KeyTypeOf(plan))
  }

  function GoodFor(plan: TopNPlan): Candidate<ColumnValue> -> bool {
    if plan.orderIdx < |plan.schema.columns| then Good(OrderKindOf(plan), KeyTypeOf(plan)) else _ => false
  }

  /** The record decodes, and its order and key values are of their columns' kinds. */
  ghost predicate Ranked(plan: TopNPlan, record: bytes) {
    var row := DecodedRow(plan, record);
    && DecodeRow(plan.schema.columns, record).Ok?
    && plan.orderIdx < |plan.schema.columns| && Orderable(OrderKindOf(plan), row(plan.orderIdx))
    && TopNOrder.KeyValue(KeyTypeOf(plan), if plan.pkIdx.Some? then row(plan.pkIdx.value) else Null)
  }

  lemma RankedIsGood(plan: TopNPlan, record: bytes)
    requires Ranked(plan, record)
    ensures GoodFor(plan)(RecordCandidate(plan, record))
  {
    hide DecodedRow, DecodeRow, Orderable, TopNOrder.KeyValue, OrderKindOf, KeyTypeOf;
  }

  function KeyOfRecord(plan: TopNPlan, record: bytes): ColumnValue
    requires plan.pkIdx.Some?
  {
    DecodedRow(plan, record)(plan.pkIdx.value)
  }

  /** Records whose primary keys compare as equal are the same record. */
  ghost predicate UniqueKeys(plan: TopNPlan, records: seq<bytes>) {
    plan.pkIdx.Some? &&
    forall i, j :: 0 <= i < |records| && 0 <= j < |records| ==>
      (PartialCmp(KeyOfRecord(plan, records[i]), KeyOfRecord(plan, records[j])) == Some(Equal) ==> records[i] == records[j])
  }

  // ---------------------------------------------------------------------------------------------
  // The projected scan.

  /** The scanned columns of a record are the columns of its row. */
  lemma ScannedIsDecoded(plan: TopNPlan, record: bytes, c: nat)
    requires ScanReady(plan) && DecodeRow(plan.schema.columns, record).Ok? && c in plan.scanIndices
    ensures var values := Project(plan.schema.columns, plan.scanIndices, record);
      values.Ok? && ScannedRow(plan, values.value)(c) == DecodedRow(plan, record)(c)
  {
    hide DecodeRow, Project;
    ProjectionAgrees(plan.schema.columns, plan.scanIndices, record);
    assert plan.scanIndices[..|plan.scanIndices|] == plan.scanIndices;
  }

  lemma RecordScanned(plan: TopNPlan, record: bytes)
    requires ScanReady(plan) && DecodeRow(plan.schema.columns, record).Ok?
    ensures var values := Project(plan.schema.columns, plan.scanIndices, record);
      && values.Ok?
      && (AllMatch(plan.filters, ScannedRow(plan, values.value)) <==> AllMatch(plan.filters, DecodedRow(plan, record)))
      && CandidateOf(plan, ScannedRow(plan, values.value), record) == CandidateOf(plan, DecodedRow(plan, record), record)
  {
    hide DecodeRow, Project, Matches, ReadsOnly, ScannedRow, DecodedRow;
    ScannedIsDecoded(plan, record, plan.orderIdx);
    var values := Project(plan.schema.columns, plan.scanIndices, record).value;
    forall c | c in plan.scanIndices ensures ScannedRow(plan, values)(c) == DecodedRow(plan, record)(c) {
      ScannedIsDecoded(plan, record, c);
    }
    forall i | 0 <= i < |plan.filters| ensures Matches(plan.filters[i], ScannedRow(plan, values)) <==> Matches(plan.filters[i], DecodedRow(plan, record)) {
      SameColumnsSameMatch(plan.filters[i], plan.scanIndices, ScannedRow(plan, values), DecodedRow(plan, record));
    }
  }

  lemma {:induction false} GeneralStreamExact(plan: TopNPlan, records: seq<bytes>)
    requires ScanReady(plan) && forall i :: 0 <= i < |records| ==> DecodeRow(plan.schema.columns, records[i]).Ok?
    ensures GeneralStream(plan, records) == Ok(MatchedStream(plan, records))
    decreases |records|
  {
    hide DecodeRow, Project, AllMatch, ScannedRow, DecodedRow, CandidateOf, ScanReady;
    if records != [] {
      RecordScanned(plan, records[0]);
      GeneralStreamExact(plan, records[1..]);
    }
  }

  /** The candidate of a record's row. */
  function RecordCandidate(plan: TopNPlan, record: bytes): Candidate<ColumnValue> {
    CandidateOf(plan, DecodedRow(plan, record), record)
  }

  /** Every candidate of the stream is that of one of the records. */
  lemma {:induction false} StreamMember(plan: TopNPlan, records: seq<bytes>, i: nat)
    requires i < |MatchedStream(plan, records)|
    ensures exists j :: 0 <= j < |records| && MatchedStream(plan, records)[i] == RecordCandidate(plan, records[j])
    decreases |records|
  {
    hide AllMatch, DecodedRow, CandidateOf;
    var rest, all := MatchedStream(plan, records[1..]), MatchedStream(plan, records);
    var first := |all| - |rest|;
    if i < first {
      assert all[i] == RecordCandidate(plan, records[0]);
    } else {
      StreamMember(plan, records[1..], i - first);
      var j :| 0 <= j < |records[1..]| && rest[i - first] == RecordCandidate(plan, records[1..][j]);
      assert records[1..][j] == records[j + 1] && all[i] == rest[i - first];
    }
  }

  lemma StreamGood(plan: TopNPlan, records: seq<bytes>)
    requires TotallyOrdered(plan) && forall i :: 0 <= i < |records| ==> Ranked(plan, records[i])
    ensures AllGood(GoodFor(plan), MatchedStream(plan, records))
  {
    hide MatchedStream, RecordCandidate, GoodFor, DecodeRow;
    var stream := MatchedStream(plan, records);
    forall i | 0 <= i < |stream| ensures GoodFor(plan)(stream[i]) {
      StreamMember(plan, records, i);
      var j :| 0 <= j < |records| && stream[i] == RecordCandidate(plan, records[j]);
      RankedIsGood(plan, records[j]);
    }
  }

  /** Unique primary keys leave no ties. */
  lemma StreamStrict(plan: TopNPlan, records: seq<bytes>)
    requires TotallyOrdered(plan) && (forall i :: 0 <= i < |records| ==> Ranked(plan, records[i])) && UniqueKeys(plan, records)
    ensures Strict(ValueComparator(plan.descending, plan.nullsFirst), MatchedStream(plan, records))
  {
    hide MatchedStream, DecodedRow, DecodeRow, OrderValues, CompareTopN, RecordCandidate, GoodFor, UniqueKeys;
    var stream, compare := MatchedStream(plan, records), ValueComparator(plan.descending, plan.nullsFirst);
    forall i, j | 0 <= i < |stream| && 0 <= j < |stream| && compare(stream[i], stream[j]) == Equal ensures stream[i] == stream[j] {
      StreamMember(plan, records, i);
      StreamMember(plan, records, j);
      var x :| 0 <= x < |records| && stream[i] == RecordCandidate(plan, records[x]);
      var y :| 0 <= y < |records| && stream[j] == RecordCandidate(plan, records[y]);
      assert Ranked(plan, records[x]) && Ranked(plan, records[y]);
      TieIsSameRecord(plan, records, x, y);
    }
  }

  lemma TieIsSameRecord(plan: TopNPlan, records: seq<bytes>, x: nat, y: nat)
    requires TotallyOrdered(plan) && UniqueKeys(plan, records) && x < |records| && y < |records|
    requires Ranked(plan, records[x]) && Ranked(plan, records[y])
    requires CompareTopN(RecordCandidate(plan, records[x]), RecordCandidate(plan, records[y]), plan.descending, plan.nullsFirst) == Equal
    ensures records[x] == records[y]
  {
    hide DecodedRow, DecodeRow, OrderValues, PartialCmp, OrderableType, Orderable;
    PartialCmpLaws(KeyTypeOf(plan).value, KeyOfRecord(plan, records[x]), KeyOfRecord(plan, records[y]), KeyOfRecord(plan, records[x]));
  }

  /**
   * The bounded heap scan returns the page of the full sort: for every stream of records whose primary keys, of any
   * orderable kind, never compare as equal, and an orderable, NaN-free order column.
   */
  lemma TopNScanExact(plan: TopNPlan, records: seq<bytes>)
    requires ScanReady(plan) && TotallyOrdered(plan) && UniqueKeys(plan, records) && |records| < 0x1_0000_0000_0000_0000
    requires forall i :: 0 <= i < |records| ==> Ranked(plan, records[i])
    ensures GeneralStream(plan, records).Ok?
    ensures Selected(plan, ValueComparator(plan.descending, plan.nullsFirst), GeneralStream(plan, records).value) == SortedPage(plan, records)
  {
    hide DecodeRow, MatchedStream, GeneralStream, DecodedRow, Kept, SortBy, Page, CandidateOf, OrderableType, KeyType, OrderKindOf, KeyTypeOf;
    assert forall i :: 0 <= i < |records| ==> Ranked(plan, records[i]) ==> DecodeRow(plan.schema.columns, records[i]).Ok?;
    GeneralStreamExact(plan, records);
    StreamGood(plan, records);
    StreamStrict(plan, records);
    StreamShorter(plan, records);
    TopNIsTotal(OrderKindOf(plan), KeyTypeOf(plan), plan.descending, plan.nullsFirst);
    TopNExact(ValueComparator(plan.descending, plan.nullsFirst), GoodFor(plan), Window(plan), MatchedStream(plan, records), plan.skip, plan.fetch);
  }

  // ---------------------------------------------------------------------------------------------
  // The same with ties.

  /**
   * `out` is a right answer up to ties: rows of the matching records, each as often as it is there, that tie position
   * by position with the sorted page.
   */
  ghost predicate SortedUpToTies(plan: TopNPlan, records: seq<bytes>, out: seq<bytes>) {
    var page := SortedPage(plan, records);
    && |out| == |page| && DrawnFrom(out, RecordsOf(MatchedStream(plan, records)))
    && forall i :: 0 <= i < |out| ==>
         CompareTopN(RecordCandidate(plan, out[i]), RecordCandidate(plan, page[i]), plan.descending, plan.nullsFirst) == Equal
  }

  lemma {:induction false} RecordsPermutation<V>(a: seq<Candidate<V>>, b: seq<Candidate<V>>)
    requires multiset(a) == multiset(b)
    ensures multiset(RecordsOf(a)) == multiset(RecordsOf(b))
    decreases |a|
  {
    if a == [] {
      assert |multiset(b)| == |b|;
    } else {
      var j := TakeOut(a, b);
      RecordsPermutation(a[1..], b[..j] + b[j + 1..]);
      assert RecordsOf(a) == [a[0].record] + RecordsOf(a[1..]);
      assert RecordsOf(b) == RecordsOf(b[..j]) + [a[0].record] + RecordsOf(b[j + 1..]);
      assert RecordsOf(b[..j] + b[j + 1..]) == RecordsOf(b[..j]) + RecordsOf(b[j + 1..]);
    }
  }

  lemma RecordsDrawn<V(!new)>(part: seq<Candidate<V>>, whole: seq<Candidate<V>>)
    requires DrawnFrom(part, whole)
    ensures DrawnFrom(RecordsOf(part), RecordsOf(whole))
  {
    var rest :| multiset(part + rest) == multiset(whole);
    RecordsPermutation(part + rest, whole);
    assert RecordsOf(part + rest) == RecordsOf(part) + RecordsOf(rest);
  }

  lemma DrawnMember<C(!new)>(part: seq<C>, whole: seq<C>, i: nat)
    requires DrawnFrom(part, whole) && i < |part|
    ensures part[i] in whole
  {
    var rest :| multiset(part + rest) == multiset(whole);
    assert (part + rest)[i] in multiset(whole);
  }

  /** Members of the stream are the candidates of their own records. */
  lemma OwnCandidate(plan: TopNPlan, records: seq<bytes>, part: seq<Candidate<ColumnValue>>, i: nat)
    requires DrawnFrom(part, MatchedStream(plan, records)) && i < |part|
    ensures part[i] == RecordCandidate(plan, RecordsOf(part)[i])
  {
    hide AllMatch, DecodedRow, DrawnFrom;
    var stream := MatchedStream(plan, records);
    DrawnMember(part, stream, i);
    var k :| 0 <= k < |stream| && stream[k] == part[i];
    StreamMember(plan, records, k);
  }

  /** A page of candidates that ties with the sorted page, as records. */
  lemma TiesAsRecords(plan: TopNPlan, records: seq<bytes>, page: seq<Candidate<ColumnValue>>)
    requires DrawnFrom(page, MatchedStream(plan, records))
    requires Ties(ValueComparator(plan.descending, plan.nullsFirst), page,
      Page(SortBy(ValueComparator(plan.descending, plan.nullsFirst), MatchedStream(plan, records)), plan.skip, plan.fetch))
    ensures SortedUpToTies(plan, records, RecordsOf(page))
  {
    hide CompareTopN, MatchedStream, SortBy, Page, RecordCandidate, DrawnFrom;
    var stream, compare := MatchedStream(plan, records), ValueComparator(plan.descending, plan.nullsFirst);
    var whole := Page(SortBy(compare, stream), plan.skip, plan.fetch);
    PageDrawn(SortBy(compare, stream), stream, plan.skip, plan.fetch);
    RecordsDrawn(page, stream);
    forall i | 0 <= i < |page|
      ensures page[i] == RecordCandidate(plan, RecordsOf(page)[i]) && whole[i] == RecordCandidate(plan, RecordsOf(whole)[i])
    {
      OwnCandidate(plan, records, page, i);
      OwnCandidate(plan, records, whole, i);
    }
  }

  lemma PageDrawn<C(!new)>(s: seq<C>, stream: seq<C>, skip: nat, fetch: nat)
    requires multiset(s) == multiset(stream)
    ensures DrawnFrom(Page(s, skip, fetch), stream)
  {
    var rest := PageParts(s, skip, fetch);
  }

  /**
   * The bounded heap scan is right up to ties: for every stream of records, with keys of any orderable kind or
   * without a key, that compare as equal or not.
   */
  lemma TopNScanUpToTies(plan: TopNPlan, records: seq<bytes>)
    requires ScanReady(plan) && TotallyOrdered(plan) && |records| < 0x1_0000_0000_0000_0000
    requires forall i :: 0 <= i < |records| ==> Ranked(plan, records[i])
    ensures GeneralStream(plan, records).Ok?
    ensures SortedUpToTies(plan, records,
      Selected(plan, ValueComparator(plan.descending, plan.nullsFirst), GeneralStream(plan, records).value))
  {
    hide DecodeRow, MatchedStream, GeneralStream, DecodedRow, Kept, SortBy, Page, CandidateOf, OrderableType, KeyType, OrderKindOf, KeyTypeOf, SortedUpToTies;
    assert forall i :: 0 <= i < |records| ==> Ranked(plan, records[i]) ==> DecodeRow(plan.schema.columns, records[i]).Ok?;
    GeneralStreamExact(plan, records);
    StreamGood(plan, records);
    StreamShorter(plan, records);
    var compare, stream := ValueComparator(plan.descending, plan.nullsFirst), MatchedStream(plan, records);
    TopNIsTotal(OrderKindOf(plan), KeyTypeOf(plan), plan.descending, plan.nullsFirst);
    TopNUpToTies(compare, GoodFor(plan), Window(plan), stream, plan.skip, plan.fetch);
    TiesAsRecords(plan, records, Page(SortBy(compare, Kept(compare, Window(plan), stream)), plan.skip, plan.fetch));
  }

  lemma {:induction false} StreamShorter(plan: TopNPlan, records: seq<bytes>)
    ensures |MatchedStream(plan, records)| <= |records|
    decreases |records|
  {
    if records != [] {
      StreamShorter(plan, records[1..]);
    }
  }
}
