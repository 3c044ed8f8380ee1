/** The top-N scan on slots returns the rows of the general one. */
module TopNAgreement {
  import opened Basics
  import opened Bytes
  import opened Values
  import opened TupleCodec
  import opened KeyCodec
  import opened RowFormat
  import opened RowProjection
  import opened FastNumericDecode
  import opened Predicates
  import opened FastPredicates
  import opened SlotComparison
  import opened Grouping
  import opened GroupKeys
  import opened AggregateScan
  import opened AggregateAgreement
  import opened TopNHeap
  import opened TopNOrder
  import opened TopNPlan
  import opened TopNScan

  // ---------------------------------------------------------------------------------------------
  // The scan on slots.

  /** The plan compiles, and its filters compare slots as they compare values. */
  ghost predicate FastReady(plan: TopNPlan, fp: FastTopN, parse: ParseF64) {
    var columns := plan.schema.columns;
    && CompileTopN(plan, parse) == Some(fp) && DistinctIds(columns) && DistinctNames(columns)
    && forall i :: 0 <= i < |plan.filters| ==> AgreeingFilter(plan.filters[i], columns, parse)
  }

  /** The record decodes on both paths, and its values fit their columns. */
  ghost predicate FastStored(plan: TopNPlan, fp: FastTopN, record: bytes) {
    && DecodeRow(plan.schema.columns, record).Ok? && FastReadable(plan.schema.columns, fp.required, record)
    && forall c {:trigger DecodedRow(plan, record)(c)} :: c in fp.required && c < |plan.schema.columns| ==>
        Fits(plan.schema.columns[c].dataType, DecodedRow(plan, record)(c))
  }

  /** The projection of the required columns shows the decoded row. */
  predicate ShowsRow(fp: FastTopN, row: Tuple, get: Row) {
    |row| == |fp.required| && forall o {:trigger row[o]} :: 0 <= o < |row| ==> row[o] == get(fp.required[o])
  }

  lemma RequiredProjected(plan: TopNPlan, fp: FastTopN, parse: ParseF64, record: bytes)
    requires FastReady(plan, fp, parse) && FastStored(plan, fp, record)
    ensures DistinctInRange(plan.schema.columns, fp.required)
    ensures var row := Project(plan.schema.columns, fp.required, record);
      row.Ok? && ShowsRow(fp, row.value, DecodedRow(plan, record))
  {
    hide DecodeRow, Project, FastReadable, CompileTopN;
    RequiredColumns(plan, parse);
    forall o | 0 <= o < |fp.required| ensures fp.required[o] < |plan.schema.columns| {
      assert FastColumn(plan.schema, fp.required[o]);
    }
    ProjectionAgrees(plan.schema.columns, fp.required, record);
  }

  lemma SlotsDecoded(plan: TopNPlan, fp: FastTopN, parse: ParseF64, record: bytes, slots: seq<nat>, buffer: seq<FastNumeric>)
    requires FastReady(plan, fp, parse) && FastStored(plan, fp, record) && |buffer| == |fp.required|
    requires forall i :: 0 <= i < |slots| ==> slots[i] < |fp.required|
    ensures var row, d := Project(plan.schema.columns, fp.required, record), FastDecode(plan.schema.columns, fp.required, record, slots, buffer);
      row.Ok? && ShowsRow(fp, row.value, DecodedRow(plan, record)) && d.Ok? && SlotsFilled(d.value, slots, row.value)
  {
    hide DecodeRow, Project, FastReadable, CompileTopN, FastDecode, Fits, SlotsFilled, DecodedRow;
    RequiredProjected(plan, fp, parse, record);
    RequiredColumns(plan, parse);
    var row := Project(plan.schema.columns, fp.required, record).value;
    forall o | 0 <= o < |fp.required| ensures FastNumericType(plan.schema.columns[fp.required[o]].dataType) {
      assert FastColumn(plan.schema, fp.required[o]);
    }
    forall o | 0 <= o < |row| ensures Fits(plan.schema.columns[fp.required[o]].dataType, row[o]) {
      assert row[o] == DecodedRow(plan, record)(fp.required[o]);
    }
    DecodeFills(plan.schema.columns, fp.required, record, row, slots, buffer);
  }

  /** A required column's slot shows the column of the row. */
  lemma SlotShows(plan: TopNPlan, fp: FastTopN, parse: ParseF64, record: bytes, row: Tuple, values: seq<FastNumeric>, slots: seq<nat>, c: nat)
    requires FastReady(plan, fp, parse) && FastStored(plan, fp, record)
    requires ShowsRow(fp, row, DecodedRow(plan, record)) && SlotsFilled(values, slots, row)
    requires SlotOf(TopNSlots(plan, fp), c).Some? && SlotOf(TopNSlots(plan, fp), c).value in slots
    ensures var s, v := SlotOf(TopNSlots(plan, fp), c).value, DecodedRow(plan, record)(c);
      && s < |values| && c < |plan.schema.columns| && FastNumericType(plan.schema.columns[c].dataType)
      && Fits(plan.schema.columns[c].dataType, v) && NumericView(v) == Some(values[s]) && View(v) == values[s]
  {
    hide DecodeRow, FastReadable, CompileTopN, Fits, NumericView, DecodedRow, FastNumericType;
    RequiredColumns(plan, parse);
    var s := SlotOf(TopNSlots(plan, fp), c).value;
    assert FastColumn(plan.schema, fp.required[s]) && fp.required[s] == c;
    ViewOfFitting(plan.schema.columns[c].dataType, row[s]);
  }

  /** With the filter's slots decoded, the compiled filter decides as the filters do on the row. */
  lemma FilterPhase(plan: TopNPlan, fp: FastTopN, parse: ParseF64, record: bytes, row: Tuple, values: seq<FastNumeric>)
    requires FastReady(plan, fp, parse) && FastStored(plan, fp, record)
    requires ShowsRow(fp, row, DecodedRow(plan, record)) && SlotsFilled(values, fp.filterSlots, row)
    ensures SlotMatches(fp.filter, values) <==> AllMatch(plan.filters, DecodedRow(plan, record))
  {
    hide FastStored, CompileTopN, Fits, NumericView, DecodedRow, SlotsIn, SlotMatches, FastMatches, Matches, SlotsFilled, ShowsRow, AgreeingFilter, FastNumericType;
    var slots := TopNSlots(plan, fp);
    FilterSlotsCovered(plan, parse);
    WholeFilterMatches(plan, parse, values);
    var get := DecodedRow(plan, record);
    forall c | 0 <= c < |slots| && slots[c].Some? && slots[c].value in SlotsIn(fp.filter)
      ensures slots[c].value < |values| && FastNumericType(plan.schema.columns[c].dataType)
      ensures Fits(plan.schema.columns[c].dataType, get(c)) && NumericView(get(c)) == Some(values[slots[c].value])
    {
      SlotShows(plan, fp, parse, record, row, values, fp.filterSlots, c);
    }
    FiltersAgree(plan.filters, plan.schema.columns, slots, values, parse, SlotsIn(fp.filter), get);
  }

  function ViewCandidate(c: Candidate<ColumnValue>): Candidate<FastNumeric> {
    Candidate(View(c.order), View(c.pk), c.record)
  }

  function Viewed(): Candidate<ColumnValue> -> Candidate<FastNumeric> {
    c => ViewCandidate(c)
  }

  /** With the candidate's slots decoded, the slot candidate is the view of the row's. */
  lemma CandidatePhase(plan: TopNPlan, fp: FastTopN, parse: ParseF64, record: bytes, row: Tuple, values: seq<FastNumeric>)
    requires FastReady(plan, fp, parse) && FastStored(plan, fp, record)
    requires ShowsRow(fp, row, DecodedRow(plan, record)) && SlotsFilled(values, fp.candidateSlots, row)
    ensures SlotCandidate(fp, values, record) == ViewCandidate(RecordCandidate(plan, record))
  {
    hide FastReady, FastStored, CompileTopN, Fits, NumericView, DecodedRow, SlotsFilled, ShowsRow, TopNSlots, FastNumericType;
    assert CompileTopN(plan, parse) == Some(fp) by { ReadyCompiles(plan, fp, parse); }
    CandidateSlotsCovered(plan, parse);
    SlotShows(plan, fp, parse, record, row, values, fp.candidateSlots, plan.orderIdx);
    if plan.pkIdx.Some? {
      SlotShows(plan, fp, parse, record, row, values, fp.candidateSlots, plan.pkIdx.value);
    } else {
      assert View(Null) == NullSlot by { NullViews(Null); }
    }
  }

  lemma ReadyCompiles(plan: TopNPlan, fp: FastTopN, parse: ParseF64)
    requires FastReady(plan, fp, parse)
    ensures CompileTopN(plan, parse) == Some(fp)
  {
  }

  lemma {:induction false} FastStreamExact(plan: TopNPlan, fp: FastTopN, parse: ParseF64, records: seq<bytes>, buffer: seq<FastNumeric>)
    requires FastReady(plan, fp, parse) && |buffer| == |fp.required|
    requires forall i :: 0 <= i < |records| ==> FastStored(plan, fp, records[i])
    ensures FastStream(plan, fp, records, buffer) == Ok(MapSeq(Viewed(), MatchedStream(plan, records)))
    decreases |records|
  {
    hide FastReady, FastStored, FastDecode, Project, DecodedRow, AllMatch, SlotMatches, SlotCandidate, ShowsRow, CandidateOf;
    if records != [] {
      var r := records[0];
      assert CompileTopN(plan, parse) == Some(fp) by { ReadyCompiles(plan, fp, parse); }
      FilterSlotsCovered(plan, parse);
      CandidateSlotsCovered(plan, parse);
      hide CompileTopN;
      SlotsDecoded(plan, fp, parse, r, fp.filterSlots, buffer);
      var row := Project(plan.schema.columns, fp.required, r).value;
      var b1 := FastDecode(plan.schema.columns, fp.required, r, fp.filterSlots, buffer).value;
      FilterPhase(plan, fp, parse, r, row, b1);
      if AllMatch(plan.filters, DecodedRow(plan, r)) {
        SlotsDecoded(plan, fp, parse, r, fp.candidateSlots, b1);
        var b2 := FastDecode(plan.schema.columns, fp.required, r, fp.candidateSlots, b1).value;
        CandidatePhase(plan, fp, parse, r, row, b2);
        FastStreamExact(plan, fp, parse, records[1..], b2);
      } else {
        FastStreamExact(plan, fp, parse, records[1..], b1);
      }
      hide MatchedStream;
      MatchedStep(plan, records);
    }
  }

  /** One record of the stream, seen through slots. */
  lemma MatchedStep(plan: TopNPlan, records: seq<bytes>)
    requires records != []
    ensures var rest := MapSeq(Viewed(), MatchedStream(plan, records[1..]));
      MapSeq(Viewed(), MatchedStream(plan, records)) ==
        if AllMatch(plan.filters, DecodedRow(plan, records[0])) then [ViewCandidate(RecordCandidate(plan, records[0]))] + rest else rest
  {
    hide AllMatch, DecodedRow, ViewCandidate;
  }

  lemma SlotsRespectOrder(plan: TopNPlan)
    requires TotallyOrdered(plan) && FastNumericType(plan.schema.columns[plan.orderIdx].dataType) && FastKey(plan)
    ensures Respects(Viewed(), ValueComparator(plan.descending, plan.nullsFirst), SlotComparator(plan.descending, plan.nullsFirst), GoodFor(plan))
  {
    hide CompareTopN, CompareFastTopN, Orderable, NumericView, FastNumericType, OrderableType, KeyTypeOf, StoredKind;
    var t, pk := plan.schema.columns[plan.orderIdx].dataType, KeyTypeOf(plan);
    FastKind(t);
    FastKeyKind(plan);
    var good, d, n := GoodFor(plan), plan.descending, plan.nullsFirst;
    forall a, b | good(a) && good(b) ensures CompareFastTopN(ViewCandidate(a), ViewCandidate(b), d, n) == CompareTopN(a, b, d, n) {
      CandidateViews(t, pk, a);
      CandidateViews(t, pk, b);
      FastTopNAgrees(t, pk, a, b, ViewCandidate(a), ViewCandidate(b), d, n);
    }
  }

  predicate FastKey(plan: TopNPlan) {
    plan.pkIdx.Some? ==> FastColumn(plan.schema, plan.pkIdx.value)
  }

  lemma FastKeyKind(plan: TopNPlan)
    requires FastKey(plan)
    ensures KeyTypeOf(plan).Some? ==> FastNumericType(KeyTypeOf(plan).value)
  {
  }

  lemma FastKind(t: DataType)
    requires FastNumericType(t)
    ensures StoredKind(t) == t
  {
  }

  lemma CandidateViews(t: DataType, pk: Option<DataType>, c: Candidate<ColumnValue>)
    requires FastNumericType(t) && (pk.Some? ==> FastNumericType(pk.value)) && GoodCandidate(t, pk, c)
    ensures NumericView(c.order) == Some(ViewCandidate(c).order) && NumericView(c.pk) == Some(ViewCandidate(c).pk)
  {
    hide Orderable, Fits, NumericView, FastNumericType;
    OrderableFits(t, c.order);
    ViewOfFitting(t, c.order);
    if pk.Some? {
      OrderableFits(pk.value, c.pk);
      ViewOfFitting(pk.value, c.pk);
    } else {
      NullViews(c.pk);
    }
  }

  /**
   * The slot scan selects the very records that the projected scan selects, ties included: slot-compiled
   * predicates decide every row alike, the decoded slots cover every slot read, and no stale slot is read.
   */
  lemma FastTopNSelectsTheSame(plan: TopNPlan, fp: FastTopN, parse: ParseF64, records: seq<bytes>, buffer: seq<FastNumeric>)
    requires FastReady(plan, fp, parse) && ScanReady(plan) && TotallyOrdered(plan) && |buffer| == |fp.required|
    requires forall i :: 0 <= i < |records| ==> FastStored(plan, fp, records[i]) && Ranked(plan, records[i])
    ensures GeneralStream(plan, records).Ok? && FastStream(plan, fp, records, buffer).Ok?
    ensures Selected(plan, SlotComparator(plan.descending, plan.nullsFirst), FastStream(plan, fp, records, buffer).value)
      == Selected(plan, ValueComparator(plan.descending, plan.nullsFirst), GeneralStream(plan, records).value)
  {
    hide FastReady, MatchedStream, GeneralStream, FastStream, Kept, SortBy, Page, CompileTopN, MapSeq, TotallyOrdered, GoodFor;
    FastOrderType(plan, fp, parse);
    FastStreamExact(plan, fp, parse, records, buffer);
    assert forall i :: 0 <= i < |records| ==> Ranked(plan, records[i]) ==> DecodeRow(plan.schema.columns, records[i]).Ok?;
    hide FastStored, Ranked, DecodeRow;
    GeneralStreamExact(plan, records);
    StreamGood(plan, records);
    SlotsRespectOrder(plan);
    var ca, cb := ValueComparator(plan.descending, plan.nullsFirst), SlotComparator(plan.descending, plan.nullsFirst);
    var stream := MatchedStream(plan, records);
    MappedTopN(Viewed(), ca, cb, GoodFor(plan), Window(plan), stream, plan.skip, plan.fetch);
    ViewedRecords(Page(SortBy(ca, Kept(ca, Window(plan), stream)), plan.skip, plan.fetch));
  }

  lemma FastOrderType(plan: TopNPlan, fp: FastTopN, parse: ParseF64)
    requires FastReady(plan, fp, parse)
    ensures plan.orderIdx < |plan.schema.columns| && FastNumericType(plan.schema.columns[plan.orderIdx].dataType) && FastKey(plan)
  {
  }

  lemma ViewedRecords(page: seq<Candidate<ColumnValue>>)
    ensures RecordsOf(MapSeq(Viewed(), page)) == RecordsOf(page)
  {
  }
}
