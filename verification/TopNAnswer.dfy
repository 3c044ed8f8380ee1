/** What a Top-N query answers, in terms of the values of the rows alone. */
module TopNAnswer {
  import opened Basics
  import opened Bytes
  import opened Values
  import opened KeyCodec
  import opened RowFormat
  import opened Predicates
  import opened PredicateMeaning
  import opened TupleCodec
  import opened FastNumericDecode
  import opened FastPredicates
  import opened SlotComparison
  import opened Grouping
  import opened AggregateScan
  import opened TopNHeap
  import opened TopNTies
  import opened TopNOrder
  import opened TopNPlan
  import opened TopNScan
  import opened TopNAgreement
  import opened KeyScan
  import opened TopNDispatch

  /** In the direction asked for, with NULL on the side asked for, `x` comes before `y`. */
  predicate ValueBefore(plan: TopNPlan, x: ColumnValue, y: ColumnValue) {
    if x.Null? || y.Null? then x.Null? != y.Null? && x.Null? == plan.nullsFirst
    else PartialCmp(x, y) == Some(if plan.descending then Greater else Less)
  }

  /** The row of `a` comes before that of `b`: by the order column, or else by the key, always ascending. */
  predicate RowBefore(plan: TopNPlan, a: bytes, b: bytes) {
    var x, y := DecodedRow(plan, a), DecodedRow(plan, b);
    || ValueBefore(plan, x(plan.orderIdx), y(plan.orderIdx))
    || (!ValueBefore(plan, y(plan.orderIdx), x(plan.orderIdx)) && plan.pkIdx.Some?
        && PartialCmp(x(plan.pkIdx.value), y(plan.pkIdx.value)) == Some(Less))
  }

  /** The records whose rows satisfy all filters. */
  function MatchingRecords(plan: TopNPlan, records: seq<bytes>): seq<bytes> {
    if records == [] then []
    else
      var row := DecodedRow(plan, records[0]);
      (if forall i :: 0 <= i < |plan.filters| ==> Holds(plan.filters[i], row, true) then [records[0]] else [])
      + MatchingRecords(plan, records[1..])
  }

  /** No row of `second` comes before one of `first`. */
  ghost predicate NoneBefore(plan: TopNPlan, second: seq<bytes>, first: seq<bytes>) {
    forall i, j :: 0 <= i < |first| && 0 <= j < |second| ==> !RowBefore(plan, second[j], first[i])
  }

  /** No row comes before one that stands in front of it. */
  ghost predicate InOrder(plan: TopNPlan, rows: seq<bytes>) {
    forall i, j :: 0 <= i < j < |rows| ==> !RowBefore(plan, rows[j], rows[i])
  }

  /** The matching rows divide into those skipped, the answer, and those left out, and none comes before an earlier one. */
  ghost predicate Divides(plan: TopNPlan, matching: seq<bytes>, skipped: seq<bytes>, out: seq<bytes>, left: seq<bytes>) {
    && multiset(skipped + out + left) == multiset(matching)
    && |skipped| == Min(plan.skip, |matching|) && |out| == Min(plan.fetch, |matching| - |skipped|)
    && InOrder(plan, out) && NoneBefore(plan, out, skipped) && NoneBefore(plan, left, skipped) && NoneBefore(plan, left, out)
  }

  /** `out` is an answer to the query over the records. */
  ghost predicate RightAnswer(plan: TopNPlan, records: seq<bytes>, out: seq<bytes>) {
    exists skipped, left :: Divides(plan, MatchingRecords(plan, records), skipped, out, left)
  }

  // ---------------------------------------------------------------------------------------------
  // Rows and candidates.

  lemma BeforeIsLess(plan: TopNPlan, a: bytes, b: bytes)
    requires TotallyOrdered(plan) && Ranked(plan, a) && Ranked(plan, b)
    ensures RowBefore(plan, a, b) <==> Compared(plan, a, b) == Less
    ensures Compared(plan, a, b) == Compared(plan, b, a).Reverse()
  {
    hide PartialCmp, DecodedRow, DecodeRow, Orderable, OrderableType, StoredKind;
    var x, y := DecodedRow(plan, a), DecodedRow(plan, b);
    if !x(plan.orderIdx).Null? && !y(plan.orderIdx).Null? {
      PartialCmpLaws(OrderKindOf(plan), x(plan.orderIdx), y(plan.orderIdx), x(plan.orderIdx));
      PartialCmpFlips(OrderKindOf(plan), x(plan.orderIdx), y(plan.orderIdx));
    }
    if plan.pkIdx.Some? {
      PartialCmpLaws(KeyTypeOf(plan).value, x(plan.pkIdx.value), y(plan.pkIdx.value), x(plan.pkIdx.value));
      PartialCmpFlips(KeyTypeOf(plan).value, x(plan.pkIdx.value), y(plan.pkIdx.value));
    } else {
      NothingCompares();
    }
  }

  lemma NothingCompares()
    ensures PartialCmp(Null, Null) == None
  {
  }

  lemma {:induction false} StreamRecords(plan: TopNPlan, records: seq<bytes>)
    ensures RecordsOf(MatchedStream(plan, records)) == MatchingRecords(plan, records)
    decreases |records|
  {
    hide DecodedRow, Matches, Holds;
    if records != [] {
      StreamRecords(plan, records[1..]);
      var row := DecodedRow(plan, records[0]);
      forall i | 0 <= i < |plan.filters| ensures Matches(plan.filters[i], row) <==> Holds(plan.filters[i], row, true) {
        MatchesExactly(plan.filters[i], row, true);
      }
      var rest := MatchedStream(plan, records[1..]);
      assert RecordsOf([CandidateOf(plan, row, records[0])] + rest) == [records[0]] + RecordsOf(rest);
      assert [] + rest == rest && [] + RecordsOf(rest) == RecordsOf(rest);
    }
  }

  /** A sorted arrangement of the stream, as records. */
  lemma ArrangedInOrder(plan: TopNPlan, records: seq<bytes>, s: seq<Candidate<ColumnValue>>)
    requires TotallyOrdered(plan) && forall i :: 0 <= i < |records| ==> Ranked(plan, records[i])
    requires SortedBy(ValueComparator(plan.descending, plan.nullsFirst), s) && multiset(s) == multiset(MatchedStream(plan, records))
    ensures InOrder(plan, RecordsOf(s)) && multiset(RecordsOf(s)) == multiset(MatchingRecords(plan, records))
  {
    hide MatchedStream, RowBefore, Ranked, CompareTopN, TotallyOrdered;
    RecordsPermutation(s, MatchedStream(plan, records));
    StreamRecords(plan, records);
    var r := RecordsOf(s);
    forall i | 0 <= i < |s| ensures s[i] == RecordCandidate(plan, r[i]) && Ranked(plan, r[i]) {
      hide RecordCandidate;
      WholeDrawn(s, MatchedStream(plan, records));
      OwnCandidate(plan, records, s, i);
      MatchingMember(plan, records, r[i]) by {
        assert r[i] in multiset(r);
      }
    }
    forall i, j | 0 <= i < j < |r| ensures !RowBefore(plan, r[j], r[i]) {
      BeforeIsLess(plan, r[j], r[i]);
      assert Compared(plan, r[i], r[j]) != Greater;
    }
  }

  lemma {:induction false} MatchingMember(plan: TopNPlan, records: seq<bytes>, record: bytes)
    requires record in MatchingRecords(plan, records)
    ensures record in records
    decreases |records|
  {
    hide DecodedRow, Holds;
    if record != records[0] {
      MatchingMember(plan, records[1..], record);
    }
  }

  /** Skip and take divide any arrangement that is in order. */
  lemma PageDivides(plan: TopNPlan, matching: seq<bytes>, r: seq<bytes>)
    requires InOrder(plan, r) && multiset(r) == multiset(matching)
    ensures exists skipped, left :: Divides(plan, matching, skipped, Page(r, plan.skip, plan.fetch), left)
  {
    hide RowBefore;
    assert |r| == |multiset(r)| == |multiset(matching)| == |matching|;
    var n := Min(plan.skip, |r|);
    var m := Min(plan.fetch, |r| - n);
    var skipped, out, left := r[..n], r[n..n + m], r[n + m..];
    assert Page(r, plan.skip, plan.fetch) == out;
    assert skipped + out + left == r;
    assert Divides(plan, matching, skipped, out, left);
  }

  lemma PageAnswers(plan: TopNPlan, records: seq<bytes>, s: seq<Candidate<ColumnValue>>)
    requires TotallyOrdered(plan) && forall i :: 0 <= i < |records| ==> Ranked(plan, records[i])
    requires SortedBy(ValueComparator(plan.descending, plan.nullsFirst), s) && multiset(s) == multiset(MatchedStream(plan, records))
    ensures RightAnswer(plan, records, RecordsOf(Page(s, plan.skip, plan.fetch)))
  {
    hide MatchedStream, Ranked, TotallyOrdered, InOrder, Divides, MatchingRecords;
    ArrangedInOrder(plan, records, s);
    PageDivides(plan, MatchingRecords(plan, records), RecordsOf(s));
    assert Page(RecordsOf(s), plan.skip, plan.fetch) == RecordsOf(Page(s, plan.skip, plan.fetch));
  }

  // ---------------------------------------------------------------------------------------------
  // The scans.

  lemma HeapAnswers(plan: TopNPlan, records: seq<bytes>)
    requires ScanReady(plan) && TotallyOrdered(plan) && |records| < 0x1_0000_0000_0000_0000
    requires forall i :: 0 <= i < |records| ==> Ranked(plan, records[i])
    ensures GeneralOutput(plan, records).Ok? && RightAnswer(plan, records, GeneralOutput(plan, records).value)
  {
    hide DecodeRow, MatchedStream, GeneralStream, DecodedRow, Kept, Discarded, SortBy, Page, CandidateOf, OrderableType, KeyType, OrderKindOf, KeyTypeOf;
    hide RightAnswer, TopNOrder.KeyValue, Orderable;
    assert forall i :: 0 <= i < |records| ==> Ranked(plan, records[i]) ==> DecodeRow(plan.schema.columns, records[i]).Ok?;
    GeneralStreamExact(plan, records);
    StreamGood(plan, records);
    StreamShorter(plan, records);
    var compare, good, stream := ValueComparator(plan.descending, plan.nullsFirst), GoodFor(plan), MatchedStream(plan, records);
    TopNIsTotal(OrderKindOf(plan), KeyTypeOf(plan), plan.descending, plan.nullsFirst);
    KeptBest(compare, good, Window(plan), stream);
    var kept, discarded := Kept(compare, Window(plan), stream), Discarded(compare, Window(plan), stream);
    assert |multiset(stream)| == |multiset(kept)| + |multiset(discarded)|;
    KeptThenDiscarded(compare, good, Window(plan), stream, kept, discarded);
    hide Ranked;
    PageOfPrefix(SortBy(compare, kept), SortBy(compare, discarded), plan.skip, plan.fetch);
    PageAnswers(plan, records, SortBy(compare, kept) + SortBy(compare, discarded));
  }

  lemma KeyScanAnswers(plan: TopNPlan, entries: seq<Record>)
    requires ScanReady(plan) && PrimaryKeyOrdered(plan) && TotallyOrdered(plan) && KeyOrdered(plan, entries) && KeysFollow(plan, entries)
    requires |entries| < 0x1_0000_0000_0000_0000 && forall i :: 0 <= i < |entries| ==> Ranked(plan, entries[i].value)
    ensures var out := KeyOrderedOutput(plan, ScanOrder(plan, entries));
      out.Ok? && RightAnswer(plan, ValuesOf(entries), out.value)
  {
    hide MatchedStream, OrderedRows, KeyOrdered, ScanReady, Ranked, KeysSized, KeysInOrder, KeysFollow, ScanOrder, RightAnswer, TotallyOrdered, SortedBy;
    var s := MatchedStream(plan, ScanOrder(plan, entries));
    FollowingKeys(plan, entries);
    ScanIsPermutation(plan, entries);
    KeyScanSortedExactly(plan, entries);
    PageAnswers(plan, ValuesOf(entries), s);
    if Window(plan) > 0 {
      KeyScanPage(plan, entries);
    } else {
      assert Page(s, plan.skip, plan.fetch) == [];
    }
  }

  /**
   * Over every table, with ties or without, whichever scan the plan gets: the output is the rows after the first
   * `skip` of the matching ones, `fetch` at most, by the order column's own values in the direction asked for, NULLs
   * on the side asked for, equal values by ascending key, and no matching row that is left out belongs before them.
   */
  lemma OutputAnswers(plan: TopNPlan, parse: ParseF64, entries: seq<Record>)
    requires ScanReady(plan) && TotallyOrdered(plan) && |entries| < 0x1_0000_0000_0000_0000
    requires forall i :: 0 <= i < |entries| ==> Ranked(plan, entries[i].value)
    requires if PrimaryKeyOrdered(plan) then KeyOrdered(plan, entries) && KeysFollow(plan, entries) else SlotPathReady(plan, parse, entries)
    ensures var out := Output(plan, parse, entries);
      out.Ok? && RightAnswer(plan, ValuesOf(entries), out.value)
  {
    hide ScanReady, TotallyOrdered, KeyOrdered, Ranked, CompileTopN, FastReady, FastStored, GeneralStream, FastStream, OrderedRows;
    hide RightAnswer, Selected, ScanOrder, KeysFollow;
    if PrimaryKeyOrdered(plan) {
      KeyScanAnswers(plan, entries);
    } else {
      var records := ValuesOf(entries);
      assert forall i :: 0 <= i < |records| ==> records[i] == entries[i].value;
      hide ValuesOf;
      HeapAnswers(plan, records);
      match CompileTopN(plan, parse)
      case None =>
      case Some(fp) => FastTopNSelectsTheSame(plan, fp, parse, records, NullSlots(|fp.required|));
    }
  }
}
