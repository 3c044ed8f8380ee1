/** The top-N scan along the primary key, with its early exit: exactly when its order is the order of the key values. */
module KeyScan {
  import opened Basics
  import opened Bytes
  import opened Values
  import opened TupleCodec
  import opened KeyCodec
  import opened Keys
  import opened RowFormat
  import opened RowProjection
  import opened RowMapProjection
  import opened Predicates
  import opened Grouping
  import opened AggregateScan
  import opened TopNHeap
  import opened TopNTies
  import opened TopNOrder
  import opened TopNPlan
  import opened TopNScan
  import opened KeyOrder

  // ---------------------------------------------------------------------------------------------
  // The early exit.

  function TakeFirst<T>(s: seq<T>, n: nat): seq<T> {
    if n < |s| then s[..n] else s
  }

  lemma TakeStep<T>(x: T, rest: seq<T>, n: nat)
    requires n > 0
    ensures TakeFirst([x] + rest, n) == [x] + TakeFirst(rest, n - 1) && TakeFirst(rest, 0) == []
  {
  }

  lemma {:induction false} OrderedRowsExact(plan: TopNPlan, records: seq<bytes>, n: nat)
    requires ScanReady(plan) && n > 0 && forall i :: 0 <= i < |records| ==> DecodeRow(plan.schema.columns, records[i]).Ok?
    ensures OrderedRows(plan, records, n) == Ok(TakeFirst(RecordsOf(MatchedStream(plan, records)), n))
    decreases |records|
  {
    hide DecodeRow, Project, ProjectRow, Matches, ScannedRow, DecodedRow;
    if records != [] {
      RecordScanned(plan, records[0]);
      RecordOutputs(plan, records[0]);
      hide ScanReady;
      if AllMatch(plan.filters, DecodedRow(plan, records[0])) {
        if n > 1 {
          OrderedRowsExact(plan, records[1..], n - 1);
        }
        assert RecordsOf(MatchedStream(plan, records)) == [records[0]] + RecordsOf(MatchedStream(plan, records[1..]));
        TakeStep(records[0], RecordsOf(MatchedStream(plan, records[1..])), n);
        assert [records[0]] + [] == [records[0]];
      } else {
        OrderedRowsExact(plan, records[1..], n);
        assert MatchedStream(plan, records) == MatchedStream(plan, records[1..]);
      }
    }
  }

  lemma RecordOutputs(plan: TopNPlan, record: bytes)
    requires ScanReady(plan) && DecodeRow(plan.schema.columns, record).Ok?
    ensures ProjectRow(plan.schema.columns, plan.outputIndices, record).Ok?
  {
    hide DecodeRow, ProjectRow;
    RowProjectionAgrees(plan.schema.columns, plan.outputIndices, record);
  }

  /** Stored rows in key order: each under the row key of its primary key, keys ascending. */
  ghost predicate KeyOrdered(plan: TopNPlan, entries: seq<Record>) {
    && plan.pkIdx.Some?
    && (forall i :: 0 <= i < |entries| ==>
        entries[i].key == RowKey(plan.schema.tableId, plan.schema.tableEpoch, KeyOfRecord(plan, entries[i].value)))
    && forall i, j :: 0 <= i < j < |entries| ==> Bytes.Lt(entries[i].key, entries[j].key)
  }

  function ValuesOf(entries: seq<Record>): (r: seq<bytes>)
    ensures |r| == |entries|
  {
    seq(|entries|, i requires 0 <= i < |entries| => entries[i].value)
  }

  function Reversed<T>(s: seq<T>): (r: seq<T>)
    ensures |r| == |s| && forall i {:trigger r[i]} :: 0 <= i < |s| ==> r[i] == s[|s| - 1 - i]
  {
    if s == [] then [] else Reversed(s[1..]) + [s[0]]
  }

  /** The records as the range scan visits them: backwards for a descending plan. */
  function ScanOrder(plan: TopNPlan, entries: seq<Record>): seq<bytes> {
    if plan.descending then Reversed(ValuesOf(entries)) else ValuesOf(entries)
  }

  // ---------------------------------------------------------------------------------------------
  // When key order is sort order.

  predicate Matching(plan: TopNPlan, record: bytes) {
    AllMatch(plan.filters, DecodedRow(plan, record))
  }

  function Compared(plan: TopNPlan, a: bytes, b: bytes): Ordering {
    CompareTopN(RecordCandidate(plan, a), RecordCandidate(plan, b), plan.descending, plan.nullsFirst)
  }

  /** No matching record comes after a smaller one. */
  ghost predicate MatchesAscend(plan: TopNPlan, records: seq<bytes>) {
    forall i, j :: 0 <= i < j < |records| && Matching(plan, records[i]) && Matching(plan, records[j]) ==>
      Compared(plan, records[i], records[j]) != Greater
  }

  /** No matching record is smaller than `a`. */
  ghost predicate NoneSmaller(plan: TopNPlan, a: bytes, records: seq<bytes>) {
    forall j :: 0 <= j < |records| && Matching(plan, records[j]) ==> Compared(plan, a, records[j]) != Greater
  }

  /** No candidate is smaller than `c`. */
  ghost predicate NoneLess<C>(compare: Compare<C>, c: C, s: seq<C>) {
    forall k :: 0 <= k < |s| ==> compare(c, s[k]) != Greater
  }

  lemma NoneLessStep<C>(compare: Compare<C>, c: C, x: C, rest: seq<C>)
    ensures NoneLess(compare, c, [x] + rest) <==> compare(c, x) != Greater && NoneLess(compare, c, rest)
  {
    var all := [x] + rest;
    assert forall k :: 0 <= k < |rest| ==> rest[k] == all[k + 1];
    assert all[0] == x && forall k :: 0 < k < |all| ==> all[k] == rest[k - 1];
  }

  lemma NoneSmallerStep(plan: TopNPlan, a: bytes, records: seq<bytes>)
    requires records != []
    ensures NoneSmaller(plan, a, records) <==>
      (Matching(plan, records[0]) ==> Compared(plan, a, records[0]) != Greater) && NoneSmaller(plan, a, records[1..])
  {
    hide Compared, Matching;
    var rest := records[1..];
    assert forall j :: 0 <= j < |rest| ==> rest[j] == records[j + 1];
    assert forall j :: 0 < j < |records| ==> records[j] == rest[j - 1];
  }

  lemma {:induction false} AgainstStream(plan: TopNPlan, records: seq<bytes>, a: bytes)
    ensures NoneLess(ValueComparator(plan.descending, plan.nullsFirst), RecordCandidate(plan, a), MatchedStream(plan, records))
      <==> NoneSmaller(plan, a, records)
    decreases |records|
  {
    hide CompareTopN, AllMatch, DecodedRow, CandidateOf, NoneSmaller;
    if records == [] {
      NothingSmaller(plan, a);
    } else {
      AgainstStream(plan, records[1..], a);
      NoneSmallerStep(plan, a, records);
      var rest, compare := MatchedStream(plan, records[1..]), ValueComparator(plan.descending, plan.nullsFirst);
      NoneLessStep(compare, RecordCandidate(plan, a), RecordCandidate(plan, records[0]), rest);
      hide NoneLess;
      assert MatchedStream(plan, records) == if Matching(plan, records[0]) then [RecordCandidate(plan, records[0])] + rest else [] + rest;
      assert [] + rest == rest;
    }
  }

  lemma NothingSmaller(plan: TopNPlan, a: bytes)
    ensures NoneSmaller(plan, a, [])
  {
  }

  lemma {:induction false} StreamSortedExactly(plan: TopNPlan, records: seq<bytes>)
    ensures SortedBy(ValueComparator(plan.descending, plan.nullsFirst), MatchedStream(plan, records)) <==> MatchesAscend(plan, records)
    decreases |records|
  {
    hide CompareTopN, AllMatch, DecodedRow, CandidateOf;
    if records != [] {
      StreamSortedExactly(plan, records[1..]);
      AgainstStream(plan, records[1..], records[0]);
      var rest, all := MatchedStream(plan, records[1..]), MatchedStream(plan, records);
      var compare := ValueComparator(plan.descending, plan.nullsFirst);
      AscendStep(plan, records);
      if Matching(plan, records[0]) {
        assert all == [RecordCandidate(plan, records[0])] + rest;
        SortedStep(compare, RecordCandidate(plan, records[0]), rest);
      } else {
        assert all == rest;
      }
    }
  }

  lemma SortedStep<C>(compare: Compare<C>, c: C, rest: seq<C>)
    ensures SortedBy(compare, [c] + rest) <==> SortedBy(compare, rest) && NoneLess(compare, c, rest)
  {
    var all := [c] + rest;
    assert forall k :: 0 <= k < |rest| ==> rest[k] == all[k + 1];
    assert all[0] == c && forall k :: 0 < k < |all| ==> all[k] == rest[k - 1];
    if SortedBy(compare, all) {
      assert NoneLess(compare, c, rest);
      forall i, j | 0 <= i < j < |rest| ensures compare(rest[i], rest[j]) != Greater {
        assert compare(all[i + 1], all[j + 1]) != Greater;
      }
    }
  }

  lemma AscendStep(plan: TopNPlan, records: seq<bytes>)
    requires records != []
    ensures MatchesAscend(plan, records)
      <==> MatchesAscend(plan, records[1..]) && (Matching(plan, records[0]) ==> NoneSmaller(plan, records[0], records[1..]))
  {
    hide Compared, Matching;
    var rest := records[1..];
    assert forall j :: 0 <= j < |rest| ==> rest[j] == records[j + 1];
    assert forall j :: 0 < j < |records| ==> records[j] == rest[j - 1];
  }

  /** Lengths inside the keys fit the u32 they are written as. */
  ghost predicate KeysSized(plan: TopNPlan, entries: seq<Record>) {
    plan.pkIdx.Some? && forall i :: 0 <= i < |entries| ==> KeySized(KeyOfRecord(plan, entries[i].value))
  }

  /** The keys of the matching rows, pair by pair, are in an order that their bytes follow. */
  ghost predicate KeysInOrder(plan: TopNPlan, entries: seq<Record>) {
    plan.pkIdx.Some? &&
    forall i, j :: 0 <= i < |entries| && 0 <= j < |entries| && Matching(plan, entries[i].value) && Matching(plan, entries[j].value) ==>
      StepsUp(KeyOfRecord(plan, entries[i].value), KeyOfRecord(plan, entries[j].value))
  }

  /** The string keys of the matching rows all have one length. */
  ghost predicate OneLength(plan: TopNPlan, entries: seq<Record>) {
    plan.pkIdx.Some? &&
    forall i, j :: 0 <= i < |entries| && 0 <= j < |entries| && Matching(plan, entries[i].value) && Matching(plan, entries[j].value) ==>
      |Spelling(KeyOfRecord(plan, entries[i].value))| == |Spelling(KeyOfRecord(plan, entries[j].value))|
  }

  /** Number and boolean keys always are, and so are string keys of one length. */
  lemma KeysInOrderByKind(plan: TopNPlan, entries: seq<Record>)
    requires TotallyOrdered(plan) && plan.pkIdx.Some? && forall i :: 0 <= i < |entries| ==> Ranked(plan, entries[i].value)
    requires KeyTypeOf(plan).value != NumericType
    ensures !StringKind(KeyTypeOf(plan).value) ==> KeysSized(plan, entries)
    ensures !StringKind(KeyTypeOf(plan).value) || OneLength(plan, entries) ==> KeysInOrder(plan, entries)
  {
    hide DecodeRow, DecodedRow, Matching, StepsUp, KeySized, OrderableType, Spelling, OrderKindOf, Orderable, CandidateOf, StringKind;
    forall i, j | 0 <= i < |entries| && 0 <= j < |entries|
      ensures !StringKind(KeyTypeOf(plan).value) ==>
        (StepsUp(KeyOfRecord(plan, entries[i].value), KeyOfRecord(plan, entries[j].value)) && KeySized(KeyOfRecord(plan, entries[i].value)))
      ensures |Spelling(KeyOfRecord(plan, entries[i].value))| == |Spelling(KeyOfRecord(plan, entries[j].value))| ==>
        StepsUp(KeyOfRecord(plan, entries[i].value), KeyOfRecord(plan, entries[j].value))
    {
      RankedKey(plan, entries[i].value);
      RankedKey(plan, entries[j].value);
      StepsUpByKind(KeyTypeOf(plan).value, KeyOfRecord(plan, entries[i].value), KeyOfRecord(plan, entries[j].value));
    }
  }

  lemma RankedKey(plan: TopNPlan, record: bytes)
    requires plan.pkIdx.Some? && TotallyOrdered(plan) && Ranked(plan, record)
    ensures IsKey(KeyTypeOf(plan).value, KeyOfRecord(plan, record))
  {
    hide DecodeRow, DecodedRow, Orderable, OrderableType;
  }

  /** Two records with keys in byte order: the scan visits them in the right order exactly when the values do not step down. */
  lemma PairInOrder(plan: TopNPlan, a: bytes, b: bytes)
    requires plan.pkIdx == Some(plan.orderIdx) && TotallyOrdered(plan) && Ranked(plan, a) && Ranked(plan, b)
    ensures (if plan.descending then Compared(plan, b, a) else Compared(plan, a, b)) != Greater <==>
      PartialCmp(KeyOfRecord(plan, a), KeyOfRecord(plan, b)) != Some(Greater)
  {
    hide DecodeRow, DecodedRow, PartialCmp, Orderable, OrderableType;
    PartialCmpLaws(KeyTypeOf(plan).value, KeyOfRecord(plan, a), KeyOfRecord(plan, b), KeyOfRecord(plan, a));
  }

  lemma KeyBytesSteps(plan: TopNPlan, a: bytes, b: bytes)
    requires plan.pkIdx == Some(plan.orderIdx) && TotallyOrdered(plan) && Ranked(plan, a) && Ranked(plan, b)
    requires KeySized(KeyOfRecord(plan, a)) && KeySized(KeyOfRecord(plan, b))
    ensures var t, e, v, w := plan.schema.tableId, plan.schema.tableEpoch, KeyOfRecord(plan, a), KeyOfRecord(plan, b);
      StepsUp(v, w) <==> (Bytes.Lt(RowKey(t, e, v), RowKey(t, e, w)) ==> PartialCmp(v, w) != Some(Greater))
  {
    hide DecodeRow, DecodedRow, EncodeKey, TablePrefix, Bytes.Lt, PartialCmp, Orderable, OrderableType, StepsUp, KeyBefore;
    var v, w := KeyOfRecord(plan, a), KeyOfRecord(plan, b);
    LtCommonPrefix(RowPrefix(plan.schema.tableId, plan.schema.tableEpoch), EncodeKey(v), EncodeKey(w));
    KeyBytesOrder(KeyTypeOf(plan).value, v, w);
    StepsUpExactly(KeyTypeOf(plan).value, v, w);
  }

  /** Positions in the scan and in key order. */
  function Visited(plan: TopNPlan, n: nat, i: int): int {
    if plan.descending then n - 1 - i else i
  }

  lemma VisitedRecord(plan: TopNPlan, entries: seq<Record>, i: nat)
    requires i < |entries|
    ensures |ScanOrder(plan, entries)| == |entries| && ScanOrder(plan, entries)[i] == entries[Visited(plan, |entries|, i)].value
    ensures ScanOrder(plan, entries)[Visited(plan, |entries|, i)] == entries[i].value
  {
  }

  /** One pair of entries, in key order: its place in the scan. */
  lemma EntryPair(plan: TopNPlan, entries: seq<Record>, x: nat, y: nat)
    requires plan.pkIdx == Some(plan.orderIdx) && TotallyOrdered(plan) && KeyOrdered(plan, entries) && KeysSized(plan, entries)
    requires x < y < |entries| && Ranked(plan, entries[x].value) && Ranked(plan, entries[y].value)
    ensures var a, b := entries[x].value, entries[y].value;
      && ((if plan.descending then Compared(plan, b, a) else Compared(plan, a, b)) != Greater <==> StepsUp(KeyOfRecord(plan, a), KeyOfRecord(plan, b)))
      && StepsUp(KeyOfRecord(plan, b), KeyOfRecord(plan, a))
  {
    hide TotallyOrdered, Ranked, Compared, KeyOfRecord, RowKey, Bytes.Lt, StepsUp, PartialCmp, KeySized;
    var a, b := entries[x].value, entries[y].value;
    assert Bytes.Lt(entries[x].key, entries[y].key);
    LtTotal(entries[x].key, entries[y].key);
    PairInOrder(plan, a, b);
    KeyBytesSteps(plan, a, b);
    KeyBytesSteps(plan, b, a);
  }

  lemma SelfSteps(plan: TopNPlan, entries: seq<Record>, x: nat)
    requires plan.pkIdx == Some(plan.orderIdx) && TotallyOrdered(plan) && KeysSized(plan, entries) && x < |entries| && Ranked(plan, entries[x].value)
    ensures StepsUp(KeyOfRecord(plan, entries[x].value), KeyOfRecord(plan, entries[x].value))
  {
    hide TotallyOrdered, Ranked, KeyOfRecord, Bytes.Lt, StepsUp, PartialCmp, KeySized, EncodeKey;
    var a := entries[x].value;
    KeyBytesSteps(plan, a, a);
    LtIrreflexive(RowKey(plan.schema.tableId, plan.schema.tableEpoch, KeyOfRecord(plan, a)));
  }

  lemma ScanAscendsExactly(plan: TopNPlan, entries: seq<Record>)
    requires plan.pkIdx == Some(plan.orderIdx) && TotallyOrdered(plan) && KeyOrdered(plan, entries) && KeysSized(plan, entries)
    requires forall i :: 0 <= i < |entries| ==> Ranked(plan, entries[i].value)
    ensures MatchesAscend(plan, ScanOrder(plan, entries)) <==> KeysInOrder(plan, entries)
  {
    hide TotallyOrdered, Ranked, Compared, KeyOfRecord, KeyOrdered, KeysSized, StepsUp, Matching, ScanOrder;
    var records, n := ScanOrder(plan, entries), |entries|;
    if KeysInOrder(plan, entries) {
      forall i, j | 0 <= i < j < |records| && Matching(plan, records[i]) && Matching(plan, records[j])
        ensures Compared(plan, records[i], records[j]) != Greater
      {
        ScanLength(plan, entries);
        VisitedRecord(plan, entries, i);
        VisitedRecord(plan, entries, j);
        var x, y := if plan.descending then n - 1 - j else i, if plan.descending then n - 1 - i else j;
        EntryPair(plan, entries, x, y);
      }
    }
    if MatchesAscend(plan, records) {
      forall x, y | 0 <= x < n && 0 <= y < n && Matching(plan, entries[x].value) && Matching(plan, entries[y].value)
        ensures StepsUp(KeyOfRecord(plan, entries[x].value), KeyOfRecord(plan, entries[y].value))
      {
        VisitedRecord(plan, entries, x);
        VisitedRecord(plan, entries, y);
        if x < y {
          EntryPair(plan, entries, x, y);
        } else if y < x {
          EntryPair(plan, entries, y, x);
        } else {
          SelfSteps(plan, entries, x);
        }
      }
    }
  }

  lemma ScanLength(plan: TopNPlan, entries: seq<Record>)
    ensures |ScanOrder(plan, entries)| == |entries|
  {
  }

  lemma {:induction false} StreamOfConcat(plan: TopNPlan, a: seq<bytes>, b: seq<bytes>)
    ensures MatchedStream(plan, a + b) == MatchedStream(plan, a) + MatchedStream(plan, b)
    decreases |a|
  {
    hide AllMatch, DecodedRow, CandidateOf;
    if a == [] {
      assert a + b == b;
    } else {
      assert (a + b)[1..] == a[1..] + b;
      StreamOfConcat(plan, a[1..], b);
    }
  }

  lemma {:induction false} StreamOfReversed(plan: TopNPlan, records: seq<bytes>)
    ensures multiset(MatchedStream(plan, Reversed(records))) == multiset(MatchedStream(plan, records))
    decreases |records|
  {
    hide AllMatch, DecodedRow, CandidateOf;
    if records != [] {
      StreamOfReversed(plan, records[1..]);
      StreamOfConcat(plan, Reversed(records[1..]), [records[0]]);
      StreamOfConcat(plan, [records[0]], records[1..]);
      assert [records[0]] + records[1..] == records;
    }
  }

  lemma ScanIsPermutation(plan: TopNPlan, entries: seq<Record>)
    ensures multiset(MatchedStream(plan, ScanOrder(plan, entries))) == multiset(MatchedStream(plan, ValuesOf(entries)))
  {
    hide MatchedStream;
    StreamOfReversed(plan, ValuesOf(entries));
  }

  /**
   * For keys of every orderable kind, in either direction: the rows that the scan along the key visits are in the
   * order that the query asks for exactly when the keys of the matching rows are in an order that their bytes follow.
   */
  lemma KeyScanSortedExactly(plan: TopNPlan, entries: seq<Record>)
    requires plan.pkIdx == Some(plan.orderIdx) && TotallyOrdered(plan) && KeyOrdered(plan, entries) && KeysSized(plan, entries)
    requires forall i :: 0 <= i < |entries| ==> Ranked(plan, entries[i].value)
    ensures SortedBy(ValueComparator(plan.descending, plan.nullsFirst), MatchedStream(plan, ScanOrder(plan, entries)))
      <==> KeysInOrder(plan, entries)
  {
    hide *;
    StreamSortedExactly(plan, ScanOrder(plan, entries));
    ScanAscendsExactly(plan, entries);
  }

  // ---------------------------------------------------------------------------------------------
  // The page.

  /** In either direction the visited stream is then already the sorted one, when no two keys compare as equal. */
  lemma ScanOrderIsSorted(plan: TopNPlan, entries: seq<Record>)
    requires plan.pkIdx == Some(plan.orderIdx) && TotallyOrdered(plan) && KeyOrdered(plan, entries) && KeysSized(plan, entries)
    requires KeysInOrder(plan, entries) && UniqueKeys(plan, ValuesOf(entries))
    requires forall i :: 0 <= i < |entries| ==> Ranked(plan, entries[i].value)
    ensures SortBy(ValueComparator(plan.descending, plan.nullsFirst), MatchedStream(plan, ValuesOf(entries)))
      == MatchedStream(plan, ScanOrder(plan, entries))
  {
    hide MatchedStream, Ranked, CompareTopN, KeyOrdered, OrderableType, KeyType, SortBy, KeysInOrder, KeysSized, UniqueKeys, TotalPreorder, ScanOrder, SortedBy;
    var compare, good := ValueComparator(plan.descending, plan.nullsFirst), GoodFor(plan);
    var a, s := MatchedStream(plan, ValuesOf(entries)), MatchedStream(plan, ScanOrder(plan, entries));
    SortedStreams(plan, entries);
    KeyScanSortedExactly(plan, entries);
    StreamStrict(plan, ValuesOf(entries));
    StrictPermutation(compare, a, s);
    SortedUnique(compare, good, s, SortBy(compare, a));
  }

  /** No two keys compare as equal: of any kind but floats and NUMERIC, no two keys in a table do. */
  ghost predicate NeverTie(plan: TopNPlan, entries: seq<Record>) {
    (KeyTypeOf(plan).Some? && TellsApart(KeyTypeOf(plan).value)) || UniqueKeys(plan, ValuesOf(entries))
  }

  /** In a table in key order, no two keys compare as equal if their kind tells values apart, or by assumption. */
  lemma KeyOrderedIsUnique(plan: TopNPlan, entries: seq<Record>)
    requires TotallyOrdered(plan) && KeyOrdered(plan, entries) && forall i :: 0 <= i < |entries| ==> Ranked(plan, entries[i].value)
    requires NeverTie(plan, entries)
    ensures UniqueKeys(plan, ValuesOf(entries))
  {
    hide KeyOfRecord, RowKey, Bytes.Lt, Ranked, PartialCmp, OrderableType;
    forall i, j | 0 <= i < j < |entries| ensures entries[i].key != entries[j].key {
      LtIrreflexive(entries[i].key);
    }
    var values := ValuesOf(entries);
    forall i, j | !UniqueKeys(plan, values) && 0 <= i < |values| && 0 <= j < |values|
      && PartialCmp(KeyOfRecord(plan, values[i]), KeyOfRecord(plan, values[j])) == Some(Equal)
      ensures values[i] == values[j]
    {
      RankedKey(plan, entries[i].value);
      RankedKey(plan, entries[j].value);
      DistinctNeverTie(KeyTypeOf(plan).value, KeyOfRecord(plan, values[i]), KeyOfRecord(plan, values[j]));
      assert entries[i].key == entries[j].key;
    }
  }

  /** Key bytes follow the order of the matching keys: always, if the keys are numbers or booleans. */
  ghost predicate KeysFollow(plan: TopNPlan, entries: seq<Record>) {
    || (KeyTypeOf(plan).Some? && !StringKind(KeyTypeOf(plan).value) && KeyTypeOf(plan).value != NumericType)
    || (KeysSized(plan, entries) && KeysInOrder(plan, entries))
  }

  lemma FollowingKeys(plan: TopNPlan, entries: seq<Record>)
    requires TotallyOrdered(plan) && plan.pkIdx.Some? && KeysFollow(plan, entries)
    requires forall i :: 0 <= i < |entries| ==> Ranked(plan, entries[i].value)
    ensures KeysSized(plan, entries) && KeysInOrder(plan, entries)
  {
    hide KeysSized, KeysInOrder, StringKind, Ranked, OrderableType;
    if !(KeysSized(plan, entries) && KeysInOrder(plan, entries)) {
      KeysInOrderByKind(plan, entries);
    }
  }

  /** What the scan returns, as a page of the visited stream. */
  lemma KeyScanPage(plan: TopNPlan, entries: seq<Record>)
    requires ScanReady(plan) && Window(plan) > 0 && |entries| < 0x1_0000_0000_0000_0000
    requires forall i :: 0 <= i < |entries| ==> Ranked(plan, entries[i].value)
    ensures var rows := OrderedRows(plan, ScanOrder(plan, entries), Window(plan));
      rows.Ok? && Page(rows.value, plan.skip, plan.fetch) == RecordsOf(Page(MatchedStream(plan, ScanOrder(plan, entries)), plan.skip, plan.fetch))
  {
    hide MatchedStream, OrderedRows, ScanReady, Ranked, DecodeRow;
    var scan := ScanOrder(plan, entries);
    ScanOrderDecodes(plan, entries);
    ScanLength(plan, entries);
    hide ScanOrder;
    OrderedRowsExact(plan, scan, Window(plan));
    StreamShorter(plan, scan);
    PageOfRecords(MatchedStream(plan, scan), Window(plan), plan.skip, plan.fetch);
  }

  /**
   * The key-ordered scan, which stops as soon as it has enough rows, forwards or backwards, returns the page of the
   * full sort: for keys of every orderable kind that are in order and never compare as equal.
   */
  lemma PrimaryKeyScanExact(plan: TopNPlan, entries: seq<Record>)
    requires ScanReady(plan) && plan.pkIdx == Some(plan.orderIdx) && TotallyOrdered(plan) && KeyOrdered(plan, entries)
    requires KeysFollow(plan, entries) && NeverTie(plan, entries)
    requires |entries| < 0x1_0000_0000_0000_0000 && forall i :: 0 <= i < |entries| ==> Ranked(plan, entries[i].value)
    ensures if Window(plan) == 0 then SortedPage(plan, ValuesOf(entries)) == []
      else var rows := OrderedRows(plan, ScanOrder(plan, entries), Window(plan));
        rows.Ok? && Page(rows.value, plan.skip, plan.fetch) == SortedPage(plan, ValuesOf(entries))
  {
    hide MatchedStream, OrderedRows, SortBy, KeyOrdered, TotallyOrdered, ScanReady, Ranked, ValuesOf, ScanOrder;
    hide KeysSized, KeysInOrder, KeysFollow, NeverTie, UniqueKeys;
    if Window(plan) > 0 {
      KeyScanPage(plan, entries);
      FollowingKeys(plan, entries);
      KeyOrderedIsUnique(plan, entries);
      ScanOrderIsSorted(plan, entries);
    }
  }

  /** Without the hypothesis on equal keys, it returns the page up to ties. */
  lemma PrimaryKeyScanUpToTies(plan: TopNPlan, entries: seq<Record>)
    requires ScanReady(plan) && plan.pkIdx == Some(plan.orderIdx) && TotallyOrdered(plan) && KeyOrdered(plan, entries)
    requires KeysFollow(plan, entries)
    requires |entries| < 0x1_0000_0000_0000_0000 && forall i :: 0 <= i < |entries| ==> Ranked(plan, entries[i].value)
    ensures if Window(plan) == 0 then SortedUpToTies(plan, ValuesOf(entries), [])
      else var rows := OrderedRows(plan, ScanOrder(plan, entries), Window(plan));
        rows.Ok? && SortedUpToTies(plan, ValuesOf(entries), Page(rows.value, plan.skip, plan.fetch))
  {
    hide MatchedStream, OrderedRows, SortBy, KeyOrdered, ScanReady, Ranked, KeysSized, KeysInOrder, KeysFollow, ValuesOf, ScanOrder, SortedUpToTies;
    hide CompareTopN, OrderableType, KeyType, TotalPreorder, SortedBy, Ties, DrawnFrom;
    var compare, good := ValueComparator(plan.descending, plan.nullsFirst), GoodFor(plan);
    var a, s := MatchedStream(plan, ValuesOf(entries)), MatchedStream(plan, ScanOrder(plan, entries));
    FollowingKeys(plan, entries);
    ScanIsPermutation(plan, entries);
    StreamTies(plan, entries);
    PagesTie(compare, s, SortBy(compare, a), plan.skip, plan.fetch);
    PageDrawn(s, a, plan.skip, plan.fetch);
    TiesAsRecords(plan, ValuesOf(entries), Page(s, plan.skip, plan.fetch));
    if Window(plan) > 0 {
      KeyScanPage(plan, entries);
    } else {
      assert Page(s, plan.skip, plan.fetch) == [];
    }
  }

  /** The visited stream ties with the sorted one. */
  lemma StreamTies(plan: TopNPlan, entries: seq<Record>)
    requires plan.pkIdx == Some(plan.orderIdx) && TotallyOrdered(plan) && KeyOrdered(plan, entries)
    requires KeysSized(plan, entries) && KeysInOrder(plan, entries)
    requires forall i :: 0 <= i < |entries| ==> Ranked(plan, entries[i].value)
    ensures var compare := ValueComparator(plan.descending, plan.nullsFirst);
      Ties(compare, MatchedStream(plan, ScanOrder(plan, entries)), SortBy(compare, MatchedStream(plan, ValuesOf(entries))))
  {
    hide MatchedStream, SortBy, KeyOrdered, Ranked, KeysSized, KeysInOrder, ScanOrder;
    hide CompareTopN, OrderableType, KeyType, TotalPreorder, SortedBy, Ties;
    var compare, good := ValueComparator(plan.descending, plan.nullsFirst), GoodFor(plan);
    var a, s := MatchedStream(plan, ValuesOf(entries)), MatchedStream(plan, ScanOrder(plan, entries));
    SortedStreams(plan, entries);
    KeyScanSortedExactly(plan, entries);
    SortedTies(compare, good, s, SortBy(compare, a));
  }

  /** What ties with a sorted sequence is sorted. */
  lemma TiedIsSorted<C(!new)>(compare: Compare<C>, good: C -> bool, a: seq<C>, b: seq<C>)
    requires TotalPreorder(compare, good) && AllGood(good, a) && AllGood(good, b) && Ties(compare, a, b) && SortedBy(compare, b)
    ensures SortedBy(compare, a)
  {
    forall i, j | 0 <= i < j < |a| ensures compare(a[i], a[j]) != Greater {
      assert compare(a[j], b[j]) == compare(b[j], a[j]).Reverse();
      assert compare(a[i], b[i]) == Equal && compare(b[i], b[j]) != Greater && compare(b[j], a[j]) == Equal;
      assert compare(a[i], b[j]) != Greater;
    }
  }

  /** Records that tie with the sorted ones, as candidates. */
  lemma TiesAsCandidates(plan: TopNPlan, entries: seq<Record>)
    requires plan.skip == 0 && plan.fetch >= |entries|
    requires SortedUpToTies(plan, ValuesOf(entries), RecordsOf(MatchedStream(plan, ScanOrder(plan, entries))))
    ensures var compare := ValueComparator(plan.descending, plan.nullsFirst);
      Ties(compare, MatchedStream(plan, ScanOrder(plan, entries)), SortBy(compare, MatchedStream(plan, ValuesOf(entries))))
  {
    hide CompareTopN, MatchedStream, SortBy, RecordCandidate, DrawnFrom, ScanOrder, ValuesOf;
    var compare := ValueComparator(plan.descending, plan.nullsFirst);
    var a, s := MatchedStream(plan, ValuesOf(entries)), MatchedStream(plan, ScanOrder(plan, entries));
    var all := SortBy(compare, a);
    ScanIsPermutation(plan, entries);
    StreamShorter(plan, ValuesOf(entries));
    assert |s| == |multiset(s)| == |multiset(a)| == |a| == |all|;
    assert Page(all, plan.skip, plan.fetch) == all;
    WholeDrawn(s, a);
    WholeDrawn(all, a);
    forall i | 0 <= i < |s| ensures compare(s[i], all[i]) == Equal {
      OwnCandidate(plan, ValuesOf(entries), s, i);
      OwnCandidate(plan, ValuesOf(entries), all, i);
    }
  }

  lemma WholeDrawn<C(!new)>(s: seq<C>, stream: seq<C>)
    requires multiset(s) == multiset(stream)
    ensures DrawnFrom(s, stream)
  {
    assert s + [] == s;
  }

  /**
   * A scan along the key that is to fetch all rows is right up to ties exactly when the keys of the matching rows are
   * in an order that their bytes follow.
   */
  lemma KeyScanExactly(plan: TopNPlan, entries: seq<Record>)
    requires ScanReady(plan) && plan.pkIdx == Some(plan.orderIdx) && TotallyOrdered(plan) && KeyOrdered(plan, entries) && KeysSized(plan, entries)
    requires forall i :: 0 <= i < |entries| ==> Ranked(plan, entries[i].value)
    requires plan.skip == 0 && plan.fetch > 0 && plan.fetch >= |entries| && |entries| < 0x1_0000_0000_0000_0000
    ensures var rows := OrderedRows(plan, ScanOrder(plan, entries), Window(plan));
      rows.Ok? && (SortedUpToTies(plan, ValuesOf(entries), Page(rows.value, plan.skip, plan.fetch)) <==> KeysInOrder(plan, entries))
  {
    hide MatchedStream, OrderedRows, SortBy, KeyOrdered, ScanReady, Ranked, KeysSized, KeysInOrder, ValuesOf, ScanOrder, SortedUpToTies;
    hide CompareTopN, OrderableType, KeyType, TotalPreorder, SortedBy, Ties, DrawnFrom;
    var compare, good := ValueComparator(plan.descending, plan.nullsFirst), GoodFor(plan);
    var a, s := MatchedStream(plan, ValuesOf(entries)), MatchedStream(plan, ScanOrder(plan, entries));
    KeyScanPage(plan, entries);
    StreamShorter(plan, ScanOrder(plan, entries));
    ScanLength(plan, entries);
    assert Page(s, plan.skip, plan.fetch) == s;
    if KeysInOrder(plan, entries) {
      PrimaryKeyScanUpToTies(plan, entries);
    }
    if SortedUpToTies(plan, ValuesOf(entries), RecordsOf(s)) {
      TiesAsCandidates(plan, entries);
      SortedStreams(plan, entries);
      TiedIsSorted(compare, good, s, SortBy(compare, a));
      KeyScanSortedExactly(plan, entries);
    }
  }

  lemma SortedStreams(plan: TopNPlan, entries: seq<Record>)
    requires TotallyOrdered(plan) && forall i :: 0 <= i < |entries| ==> Ranked(plan, entries[i].value)
    ensures var compare, good := ValueComparator(plan.descending, plan.nullsFirst), GoodFor(plan);
      var a, s := MatchedStream(plan, ValuesOf(entries)), MatchedStream(plan, ScanOrder(plan, entries));
      && TotalPreorder(compare, good) && AllGood(good, s) && AllGood(good, SortBy(compare, a)) && SortedBy(compare, SortBy(compare, a))
      && multiset(s) == multiset(a)
  {
    hide MatchedStream, SortBy, Ranked, ScanOrder, CompareTopN, OrderableType, KeyType, TotalPreorder, SortedBy;
    var compare, good := ValueComparator(plan.descending, plan.nullsFirst), GoodFor(plan);
    var a, s := MatchedStream(plan, ValuesOf(entries)), MatchedStream(plan, ScanOrder(plan, entries));
    TopNIsTotal(OrderKindOf(plan), KeyTypeOf(plan), plan.descending, plan.nullsFirst);
    StreamGood(plan, ValuesOf(entries));
    SortIsSorted(compare, good, a);
    ScanIsPermutation(plan, entries);
    GoodPermutation(good, a, s);
  }

  lemma ScanOrderDecodes(plan: TopNPlan, entries: seq<Record>)
    requires forall i :: 0 <= i < |entries| ==> Ranked(plan, entries[i].value)
    ensures forall i :: 0 <= i < |ScanOrder(plan, entries)| ==> DecodeRow(plan.schema.columns, ScanOrder(plan, entries)[i]).Ok?
  {
    hide DecodeRow, DecodedRow, GoodFor, RecordCandidate;
    var scan := ScanOrder(plan, entries);
    forall i | 0 <= i < |scan| ensures DecodeRow(plan.schema.columns, scan[i]).Ok? {
      var x := if plan.descending then |entries| - 1 - i else i;
      assert scan[i] == entries[x].value && Ranked(plan, entries[x].value);
    }
  }

  lemma PageOfRecords<V>(s: seq<Candidate<V>>, window: nat, skip: nat, fetch: nat)
    requires skip + fetch <= window || |s| <= window
    ensures Page(TakeFirst(RecordsOf(s), window), skip, fetch) == RecordsOf(Page(s, skip, fetch))
  {
    var r := RecordsOf(s);
    if window < |r| {
      assert r == r[..window] + r[window..];
      PageOfPrefix(r[..window], r[window..], skip, fetch);
    }
  }
}
