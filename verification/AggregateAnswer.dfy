/** What an aggregate query answers over stored rows, whichever of the three ways the scan takes. */
module AggregateAnswer {
  import opened Basics
  import opened Bytes
  import opened Values
  import opened TupleCodec
  import opened KeyCodec
  import opened Keys
  import opened RowFormat
  import opened RowProjection
  import opened FastNumericDecode
  import opened Predicates
  import opened PredicateMeaning
  import opened FastPredicates
  import opened SlotComparison
  import opened GroupKeys
  import opened Grouping
  import opened Aggregates
  import opened FloatAggregates
  import opened AggregateScan
  import opened AggregateAgreement
  import opened AggregateReduce
  import opened AggregateValues

  /** The row stored in a record, by column. */
  function StoredRow(plan: ScanPlan, r: Record): Row {
    match DecodeRow(plan.schema.columns, r.value)
    case Err => (_: nat) => Null
    case Ok(row) => RowOfMap(plan.schema.columns, row)
  }

  /** The one primary key column. */
  predicate KeyColumn(plan: ScanPlan, p: nat) {
    var columns := plan.schema.columns;
    p < |columns| && columns[p].name == plan.schema.primaryKey && forall i :: 0 <= i < |columns| ==> (columns[i].primaryKey <==> i == p)
  }

  /** A record of the table: a row that decodes, under the row key of its primary key. */
  ghost predicate InTable(plan: ScanPlan, r: Record) {
    var columns := plan.schema.columns;
    && DecodeRow(columns, r.value).Ok?
    && var key := RowValue(DecodeRow(columns, r.value).value, plan.schema.primaryKey);
    && !key.Null? && KeySized(key) && (forall p: nat {:trigger KeyColumn(plan, p)} :: KeyColumn(plan, p) ==> KeyOf(columns[p].dataType, key))
    && r.key == RowKey(plan.schema.tableId, plan.schema.tableEpoch, key)
  }

  /** What the scan hands over: a scan of keys alone sees no values. */
  function Delivered(plan: ScanPlan, records: seq<Record>): (r: seq<Record>)
    ensures |r| == |records|
  {
    seq(|records|, i requires 0 <= i < |records| => if plan.keyOnly then records[i].(value := []) else records[i])
  }

  /** The columns that filters, groups and aggregates read are required, and only keys are scanned if they are all. */
  ghost predicate Planned(plan: ScanPlan) {
    var columns := plan.schema.columns;
    && DistinctIds(columns) && DistinctNames(columns) && DistinctInRange(columns, plan.required) && (exists p: nat :: KeyColumn(plan, p))
    && (plan.keyOnly ==> forall o {:trigger plan.required[o]} :: 0 <= o < |plan.required| ==> columns[plan.required[o]].name == plan.schema.primaryKey)
    && (forall i :: 0 <= i < |plan.filters| ==> ReadsOnly(plan.filters[i], plan.required))
    && (forall i :: 0 <= i < |plan.groupIndices| ==> plan.groupIndices[i] in plan.required)
    && (forall i :: 0 <= i < |plan.aggregates| && !plan.aggregates[i].CountStar? ==> plan.aggregates[i].column in plan.required)
  }

  /** The kind of values that a column stores. */
  function KindOf(plan: ScanPlan, c: nat): DataType {
    if c < |plan.schema.columns| then StoredKind(plan.schema.columns[c].dataType) else JsonType
  }

  /** MIN and MAX are asked only of columns of a totally ordered kind. */
  predicate Extremes(plan: ScanPlan) {
    forall i :: 0 <= i < |plan.aggregates| && (plan.aggregates[i].MaxColumn? || plan.aggregates[i].MinColumn?) ==>
      TopNOrder.OrderableType(KindOf(plan, plan.aggregates[i].column))
  }

  /** Values of their columns' kinds, in the order of MIN and MAX where one is asked, group values no longer than a key holds. */
  ghost predicate Regular(plan: ScanPlan, row: Row) {
    && (forall c :: c in plan.required ==> KeyOf(KindOf(plan, c), row(c)))
    && (forall i :: 0 <= i < |plan.aggregates| && (plan.aggregates[i].MaxColumn? || plan.aggregates[i].MinColumn?) ==>
        TopNOrder.Orderable(KindOf(plan, plan.aggregates[i].column), row(plan.aggregates[i].column)))
    && AllSized(GroupOf(plan, row))
  }

  ghost predicate AllRegular(plan: ScanPlan, rows: seq<Row>) {
    forall i :: 0 <= i < |rows| ==> Regular(plan, rows[i])
  }

  predicate Satisfies(plan: ScanPlan, row: Row) {
    forall i :: 0 <= i < |plan.filters| ==> Holds(plan.filters[i], row, true)
  }

  /** The rows that satisfy all filters, in scan order. */
  function MatchingRows(plan: ScanPlan, records: seq<Record>): seq<Row> {
    if records == [] then []
    else
      var row := StoredRow(plan, records[0]);
      (if Satisfies(plan, row) then [row] else []) + MatchingRows(plan, records[1..])
  }

  function GroupOf(plan: ScanPlan, row: Row): Tuple {
    seq(|plan.groupIndices|, i requires 0 <= i < |plan.groupIndices| => row(plan.groupIndices[i]))
  }

  function Groups(plan: ScanPlan, rows: seq<Row>): (r: set<Tuple>)
    ensures forall i {:trigger rows[i]} :: 0 <= i < |rows| ==> GroupOf(plan, rows[i]) in r
    ensures forall g :: g in r ==> exists i :: 0 <= i < |rows| && GroupOf(plan, rows[i]) == g
  {
    set i | 0 <= i < |rows| :: GroupOf(plan, rows[i])
  }

  /** The rows of one group, in order. */
  function RowsIn(plan: ScanPlan, rows: seq<Row>, g: Tuple): seq<Row> {
    if rows == [] then []
    else
      var k := |rows| - 1;
      RowsIn(plan, rows[..k], g) + if GroupOf(plan, rows[k]) == g then [rows[k]] else []
  }

  /** One answer for each aggregate. */
  ghost predicate AllMean(ops: FloatOps, plan: ScanPlan, slots: bool, rows: seq<Row>, answers: Tuple) {
    |answers| == |plan.aggregates| &&
    forall i :: 0 <= i < |answers| ==> Means(ops, plan.schema.columns, slots, plan.aggregates[i], rows, answers[i])
  }

  /** The answers of each group of the rows, over its own rows. */
  ghost predicate GroupsMean(ops: FloatOps, plan: ScanPlan, slots: bool, rows: seq<Row>, answers: map<Tuple, Tuple>) {
    answers.Keys == Groups(plan, rows) && forall g :: g in answers ==> AllMean(ops, plan, slots, RowsIn(plan, rows, g), answers[g])
  }

  /** Without groups one row of answers; with groups one row for each distinct group, its values before its answers. */
  ghost predicate Answers(ops: FloatOps, plan: ScanPlan, slots: bool, rows: seq<Row>, out: set<Tuple>) {
    if plan.groupIndices == [] then exists answers :: out == {answers} && AllMean(ops, plan, slots, rows, answers)
    else exists answers :: GroupsMean(ops, plan, slots, rows, answers) && out == set g | g in answers :: g + answers[g]
  }

  // ---------------------------------------------------------------------------------------------
  // Reading one record.

  lemma {:induction false} FirstPrimaryKey(columns: seq<ColumnSchema>, p: nat)
    requires p < |columns| && forall i :: 0 <= i < |columns| ==> (columns[i].primaryKey <==> i == p)
    ensures PkDataType(columns) == columns[p].dataType
    decreases |columns|
  {
    if p > 0 {
      FirstPrimaryKey(columns[1..], p - 1);
    }
  }

  /** Whatever is read from the key, the required values are those of the stored row. */
  lemma RecordRead(plan: ScanPlan, r: Record)
    requires Planned(plan) && InTable(plan, r)
    ensures var values := ProjectedRecord(plan, Delivered(plan, [r])[0]);
      values.Ok? && |values.value| == |plan.required| &&
      forall o {:trigger values.value[o]} :: 0 <= o < |plan.required| ==> values.value[o] == StoredRow(plan, r)(plan.required[o])
  {
    hide DecodeRow, Project, KeyOf, KeySized, RowKey, DecodePkFromRowKey, ReadsOnly, StoredKind;
    var columns := plan.schema.columns;
    var key := RowValue(DecodeRow(columns, r.value).value, plan.schema.primaryKey);
    var p: nat :| KeyColumn(plan, p);
    FirstPrimaryKey(columns, p);
    RowKeyRoundTrip(plan.schema.tableId, plan.schema.tableEpoch, key, PkDataType(columns));
    if !plan.keyOnly {
      ProjectionAgrees(columns, plan.required, r.value);
    }
  }

  lemma ReadColumn(plan: ScanPlan, values: Tuple, row: Row, c: nat)
    requires |values| == |plan.required| && c in plan.required
    requires forall o {:trigger values[o]} :: 0 <= o < |plan.required| ==> values[o] == row(plan.required[o])
    ensures ProjectedRow(plan, values)(c) == row(c)
  {
  }

  /** Rows read from the records, and the stored rows they show. */
  ghost predicate Alike(plan: ScanPlan, read: seq<Tuple>, rows: seq<Row>) {
    |read| == |rows| && forall i, c :: 0 <= i < |rows| && c in plan.required ==> ProjectedRow(plan, read[i])(c) == rows[i](c)
  }

  lemma FiltersRead(plan: ScanPlan, values: Tuple, row: Row)
    requires Planned(plan) && forall c :: c in plan.required ==> ProjectedRow(plan, values)(c) == row(c)
    ensures AllMatch(plan.filters, ProjectedRow(plan, values)) <==> Satisfies(plan, row)
  {
    hide Matches, Holds, ProjectedRow, ReadsOnly;
    forall i | 0 <= i < |plan.filters| ensures Matches(plan.filters[i], ProjectedRow(plan, values)) <==> Holds(plan.filters[i], row, true) {
      SameColumnsSameMatch(plan.filters[i], plan.required, ProjectedRow(plan, values), row);
      MatchesExactly(plan.filters[i], row, true);
    }
  }

  lemma {:induction false} MatchedAlike(plan: ScanPlan, records: seq<Record>)
    requires Planned(plan) && forall i :: 0 <= i < |records| ==> InTable(plan, records[i])
    ensures forall i :: 0 <= i < |records| ==> ProjectedRecord(plan, Delivered(plan, records)[i]).Ok?
    ensures Alike(plan, MatchedRows(plan, Delivered(plan, records)), MatchingRows(plan, records))
    decreases |records|
  {
    hide ProjectedRecord, InTable, StoredRow, AllMatch, Satisfies, Planned, ProjectedRow;
    if records != [] {
      var r := records[0];
      RecordRead(plan, r);
      var values, row := ProjectedRecord(plan, Delivered(plan, [r])[0]).value, StoredRow(plan, r);
      forall c | c in plan.required ensures ProjectedRow(plan, values)(c) == row(c) {
        ReadColumn(plan, values, row, c);
      }
      FiltersRead(plan, values, row);
      MatchedAlike(plan, records[1..]);
      assert Delivered(plan, records)[0] == Delivered(plan, [r])[0] && Delivered(plan, records)[1..] == Delivered(plan, records[1..]);
      forall i | 0 <= i < |records| ensures ProjectedRecord(plan, Delivered(plan, records)[i]).Ok? {
        assert i > 0 ==> Delivered(plan, records)[i] == Delivered(plan, records[1..])[i - 1];
      }
    }
  }

  lemma {:induction false} EveryRowStored(plan: ScanPlan, records: seq<Record>, i: nat)
    requires i < |MatchingRows(plan, records)|
    ensures exists j :: 0 <= j < |records| && MatchingRows(plan, records)[i] == StoredRow(plan, records[j])
    decreases |records|
  {
    hide StoredRow, Satisfies;
    var rest, all := MatchingRows(plan, records[1..]), MatchingRows(plan, records);
    var first := |all| - |rest|;
    if i < first {
      assert all[i] == StoredRow(plan, records[0]);
    } else {
      EveryRowStored(plan, records[1..], i - first);
      var j :| 0 <= j < |records[1..]| && rest[i - first] == StoredRow(plan, records[1..][j]);
      assert records[1..][j] == records[j + 1] && all[i] == rest[i - first];
    }
  }

  // ---------------------------------------------------------------------------------------------
  // Groups.

  lemma GroupRead(plan: ScanPlan, values: Tuple, row: Row)
    requires Planned(plan) && forall c :: c in plan.required ==> ProjectedRow(plan, values)(c) == row(c)
    ensures GroupTuple(plan, values) == GroupOf(plan, row)
  {
    hide ProjectedRow;
    assert forall i :: 0 <= i < |plan.groupIndices| ==> plan.groupIndices[i] in plan.required;
  }

  lemma GroupsAlike(plan: ScanPlan, read: seq<Tuple>, rows: seq<Row>)
    requires Planned(plan) && Alike(plan, read, rows)
    ensures GroupsOf(plan, read) == Groups(plan, rows)
  {
    hide ProjectedRow, GroupTuple, GroupOf, Planned;
    forall i | 0 <= i < |rows| ensures GroupTuple(plan, read[i]) == GroupOf(plan, rows[i]) {
      GroupRead(plan, read[i], rows[i]);
    }
    forall g | g in GroupsOf(plan, read) ensures g in Groups(plan, rows) {
      var i :| 0 <= i < |read| && TupleOf(plan)(read[i]) == g;
      assert GroupOf(plan, rows[i]) == g;
    }
    forall g | g in Groups(plan, rows) ensures g in GroupsOf(plan, read) {
      var i :| 0 <= i < |rows| && GroupOf(plan, rows[i]) == g;
      assert TupleOf(plan)(read[i]) == g;
    }
  }

  lemma {:induction false} MembersAlike(plan: ScanPlan, read: seq<Tuple>, rows: seq<Row>, g: Tuple)
    requires Planned(plan) && Alike(plan, read, rows)
    ensures Alike(plan, RowsOfGroup(plan, read, g), RowsIn(plan, rows, g))
    decreases |rows|
  {
    hide ProjectedRow, GroupTuple, GroupOf, Planned;
    if rows != [] {
      var k := |rows| - 1;
      MembersAlike(plan, read[..k], rows[..k], g);
      GroupRead(plan, read[k], rows[k]);
    }
  }

  // ---------------------------------------------------------------------------------------------
  // Regular rows.

  lemma MatchingRegular(plan: ScanPlan, records: seq<Record>)
    requires forall i :: 0 <= i < |records| ==> Regular(plan, StoredRow(plan, records[i]))
    ensures AllRegular(plan, MatchingRows(plan, records))
  {
    hide Regular, StoredRow, MatchingRows;
    forall i | 0 <= i < |MatchingRows(plan, records)| ensures Regular(plan, MatchingRows(plan, records)[i]) {
      EveryRowStored(plan, records, i);
    }
  }

  lemma {:induction false} GroupRegular(plan: ScanPlan, rows: seq<Row>, g: Tuple)
    requires AllRegular(plan, rows)
    ensures AllRegular(plan, RowsIn(plan, rows, g))
    decreases |rows|
  {
    hide Regular, GroupOf;
    if rows != [] {
      GroupRegular(plan, rows[..|rows| - 1], g);
    }
  }

  /** Values of one kind that differ at most in the kind of their strings are the same. */
  lemma {:induction false} KindlessOfKind(t: DataType, v: ColumnValue, w: ColumnValue)
    requires KeyOf(t, v) && KeyOf(t, w) && Kindless(v) == Kindless(w)
    ensures v == w
    decreases t
  {
    hide PlainType, TextKey;
    if v.Array? && w.Array? {
      KindlessItems(v.items, w.items);
      forall i | 0 <= i < |v.items| ensures v.items[i] == w.items[i] {
        KindlessOfKind(t.element, v.items[i], w.items[i]);
      }
    }
  }

  lemma {:induction false} KindlessItems(v: seq<ColumnValue>, w: seq<ColumnValue>)
    requires KindlessAll(v) == KindlessAll(w)
    ensures |v| == |w| && forall i :: 0 <= i < |v| ==> Kindless(v[i]) == Kindless(w[i])
    decreases |v|
  {
    if v != [] {
      assert KindlessAll(v)[1..] == KindlessAll(v[1..]) && KindlessAll(w)[1..] == KindlessAll(w[1..]);
      KindlessItems(v[1..], w[1..]);
    }
  }

  /** Group keys tell regular rows' groups apart. */
  lemma RegularKeys(plan: ScanPlan, a: Row, b: Row)
    requires Planned(plan) && Regular(plan, a) && Regular(plan, b) && TypedGroupKey(GroupOf(plan, a)) == TypedGroupKey(GroupOf(plan, b))
    ensures GroupOf(plan, a) == GroupOf(plan, b)
  {
    hide TypedGroupKey, KeyOf, Kindless, KindlessAll, StoredKind, GroupSized;
    var g, h := GroupOf(plan, a), GroupOf(plan, b);
    GroupKeyFaithful(g, h);
    KindlessItems(g, h);
    forall i | 0 <= i < |plan.groupIndices| ensures g[i] == h[i] {
      assert plan.groupIndices[i] in plan.required;
      KindlessOfKind(KindOf(plan, plan.groupIndices[i]), g[i], h[i]);
    }
  }

  // ---------------------------------------------------------------------------------------------
  // Scans of values.

  lemma AggregateAnswerable(plan: ScanPlan, read: seq<Tuple>, rows: seq<Row>, i: nat)
    requires Planned(plan) && Extremes(plan) && Alike(plan, read, rows) && AllRegular(plan, rows) && i < |plan.aggregates|
    ensures var op := plan.aggregates[i];
      && Answerable(plan.schema.columns, op, GeneralRowsOf(plan, read))
      && (!op.CountStar? ==> forall j :: 0 <= j < |rows| ==> GeneralRowsOf(plan, read)[j](op.column) == rows[j](op.column))
  {
    hide KeyOf, StoredKind, ProjectedRow, TopNOrder.Orderable, TopNOrder.OrderableType, GroupSized;
    var op := plan.aggregates[i];
    if !op.CountStar? {
      assert op.column in plan.required;
      forall j | 0 <= j < |rows| ensures GeneralRowsOf(plan, read)[j](op.column) == rows[j](op.column) && Regular(plan, rows[j]) {
      }
    }
  }

  lemma ValuesAllMean(ops: FloatOps, plan: ScanPlan, read: seq<Tuple>, rows: seq<Row>)
    requires Planned(plan) && Extremes(plan) && Alike(plan, read, rows) && AllRegular(plan, rows)
    ensures AllMean(ops, plan, false, rows, FinishAll(ops, FoldRows(GeneralGrouper(ops, plan), read)))
  {
    hide Planned, Extremes, Alike, AllRegular, Finish, Folded, FoldRows, Means, Answerable, GeneralGrouper;
    GeneralFold(ops, plan, read);
    var states := FoldRows(GeneralGrouper(ops, plan), read);
    assert |read| == |rows| by { AlikeLength(plan, read, rows); }
    forall i | 0 <= i < |plan.aggregates|
      ensures Means(ops, plan.schema.columns, false, plan.aggregates[i], rows, FinishAll(ops, states)[i])
    {
      var op, seen := plan.aggregates[i], GeneralRowsOf(plan, read);
      AggregateAnswerable(plan, read, rows, i);
      GeneralMeans(ops, plan.schema.columns, op, seen);
      assert states[i] == Folded(ops, op, seen);
      MeansOfColumn(ops, plan.schema.columns, false, op, seen, rows, AggregateResult(ops, op, seen));
    }
  }

  lemma AlikeLength(plan: ScanPlan, read: seq<Tuple>, rows: seq<Row>)
    requires Alike(plan, read, rows)
    ensures |read| == |rows|
  {
  }

  lemma ValuesGrouped(ops: FloatOps, plan: ScanPlan, read: seq<Tuple>, rows: seq<Row>) returns (answers: map<Tuple, Tuple>)
    requires Planned(plan) && Extremes(plan) && Alike(plan, read, rows) && AllRegular(plan, rows)
    ensures GroupsMean(ops, plan, false, rows, answers)
    ensures GeneralRows(ops, GroupRows(GeneralGrouper(ops, plan), read, map[])) == KeyedRows(answers)
  {
    hide Planned, Extremes, Alike, AllRegular, FinishAll, FoldRows, AllMean, Members, Groups, Tuples, TypedGroupKey, GroupTuple, GroupOf;
    var gr, all := GeneralGrouper(ops, plan), Groups(plan, rows);
    GroupsAlike(plan, read, rows);
    forall g, h | g in all && h in all && gr.key(g) == gr.key(h) ensures g == h {
      SameKeySameGroup(plan, rows, g, h);
    }
    GroupRowsExact(gr, read);
    var groups := GroupRows(gr, read, map[]);
    hide GroupRows;
    answers := map g | g in all :: FinishAll(ops, FoldRows(gr, RowsOfGroup(plan, read, g)));
    forall g | g in all ensures AllMean(ops, plan, false, RowsIn(plan, rows, g), answers[g]) {
      MembersAlike(plan, read, rows, g);
      GroupRegular(plan, rows, g);
      ValuesAllMean(ops, plan, RowsOfGroup(plan, read, g), RowsIn(plan, rows, g));
    }
    GeneralRowsByGroup(ops, gr, all, groups, answers);
  }

  lemma SameKeySameGroup(plan: ScanPlan, rows: seq<Row>, g: Tuple, h: Tuple)
    requires Planned(plan) && AllRegular(plan, rows) && g in Groups(plan, rows) && h in Groups(plan, rows) && TypedGroupKey(g) == TypedGroupKey(h)
    ensures g == h
  {
    hide Planned, Regular, TypedGroupKey, GroupOf;
    var i :| 0 <= i < |rows| && GroupOf(plan, rows[i]) == g;
    var j :| 0 <= j < |rows| && GroupOf(plan, rows[j]) == h;
    RegularKeys(plan, rows[i], rows[j]);
  }

  lemma GeneralAnswers(ops: FloatOps, plan: ScanPlan, records: seq<Record>)
    requires Planned(plan) && Extremes(plan)
    requires forall i :: 0 <= i < |records| ==> InTable(plan, records[i]) && Regular(plan, StoredRow(plan, records[i]))
    ensures var out := GeneralOutput(ops, plan, Delivered(plan, records));
      out.Ok? && Answers(ops, plan, false, MatchingRows(plan, records), out.value)
  {
    hide Planned, Extremes, InTable, Regular, AllRegular, Alike, StoredRow, ProjectedRecord, MatchedRows, MatchingRows, Delivered, AllMean, GroupsMean;
    hide GeneralUngrouped, GeneralGrouped, GeneralRows, FinishAll, FoldRows, GroupRows, GeneralGrouper;
    var read, rows := MatchedRows(plan, Delivered(plan, records)), MatchingRows(plan, records);
    MatchedAlike(plan, records);
    MatchingRegular(plan, records);
    if plan.groupIndices == [] {
      GeneralUngroupedScan(ops, plan, Delivered(plan, records), []);
      FoldNothing(ops, plan);
      assert [] + read == read;
      ValuesAllMean(ops, plan, read, rows);
    } else {
      GeneralGroupedScan(ops, plan, Delivered(plan, records), map[]);
      var answers := ValuesGrouped(ops, plan, read, rows);
    }
  }

  lemma FoldNothing(ops: FloatOps, plan: ScanPlan)
    ensures FoldRows(GeneralGrouper(ops, plan), []) == InitialStates(plan)
  {
  }

  // ---------------------------------------------------------------------------------------------
  // Scans of slots.

  /** What the slot path asks besides: filters that compare slots as they compare values. */
  ghost predicate SlotsCompare(plan: ScanPlan) {
    forall i :: 0 <= i < |plan.filters| ==> AgreeingFilter(plan.filters[i], plan.schema.columns, NoParse)
  }

  /** And a record whose slots can be read, without NaN in the required columns. */
  ghost predicate SlotsRead(plan: ScanPlan, r: Record) {
    && FastReadable(plan.schema.columns, plan.required, r.value)
    && forall c :: c in plan.required && c < |plan.schema.columns| ==> Fits(plan.schema.columns[c].dataType, StoredRow(plan, r)(c))
  }

  lemma FastComparable(plan: ScanPlan, fp: FastPlan)
    requires Planned(plan) && SlotsCompare(plan) && FastPlanOf(plan) == Some(fp)
    ensures Comparable(plan)
  {
    hide AgreeingFilter, ReadsOnly, GroupSlots, AggregateSlots, ColumnSlots, FilterSlotsAll, Ascending;
    assert forall i :: 0 <= i < |plan.groupIndices| ==> plan.groupIndices[i] in plan.required;
    assert forall i :: 0 <= i < |plan.aggregates| && !plan.aggregates[i].CountStar? ==> plan.aggregates[i].column in plan.required;
  }

  lemma SlotsStored(plan: ScanPlan, fp: FastPlan, r: Record)
    requires Planned(plan) && FastPlanOf(plan) == Some(fp) && InTable(plan, r) && SlotsRead(plan, r)
    ensures Stored(plan, r)
  {
    hide DecodeRow, Project, ProjectedRecord, FastReadable, ReadsOnly, StoredRow, Fits;
    RecordRead(plan, r);
    assert !plan.keyOnly && Delivered(plan, [r])[0] == r;
    ProjectionIsRow(plan, r);
    assert ProjectedRecord(plan, r).value == Project(plan.schema.columns, plan.required, r.value).value;
  }

  lemma ProjectionIsRow(plan: ScanPlan, r: Record)
    requires Planned(plan) && InTable(plan, r)
    ensures var values := Project(plan.schema.columns, plan.required, r.value);
      values.Ok? && |values.value| == |plan.required| &&
      forall o {:trigger values.value[o]} :: 0 <= o < |plan.required| ==> values.value[o] == StoredRow(plan, r)(plan.required[o])
  {
    hide DecodeRow, Project, ReadsOnly;
    ProjectionAgrees(plan.schema.columns, plan.required, r.value);
  }

  lemma SlotsAllMean(ops: FloatOps, plan: ScanPlan, fp: FastPlan, init: seq<FastState>, read: seq<Tuple>, rows: seq<Row>)
    requires Planned(plan) && Comparable(plan) && FastPlanOf(plan) == Some(fp) && FitRows(plan, read)
    requires FastInitialStates(plan) == Some(init) && Alike(plan, read, rows)
    ensures AllMean(ops, plan, true, rows, FastFinishAll(ops, plan, FoldRows(FastGrouper(ops, plan, fp, init), read)))
  {
    hide Comparable, FastPlanOf, FitRows, FastFinish, FastFolded, FoldRows, Means, FastGrouper, NumericInput, ProjectedRow, ReadsOnly;
    FastFold(ops, plan, fp, init, read);
    var states := FoldRows(FastGrouper(ops, plan, fp, init), read);
    forall i | 0 <= i < |plan.aggregates|
      ensures Means(ops, plan.schema.columns, true, plan.aggregates[i], rows, FastFinishAll(ops, plan, states)[i])
    {
      var op, seen, fast := plan.aggregates[i], GeneralRowsOf(plan, read), FastRowsOf(fp, read);
      AggregateInputs(plan, fp, read, i);
      FastMeans(ops, plan.schema.columns, op, seen, fast);
      assert states[i] == FastFolded(ops, plan.schema.columns, op, fast);
      MeansOfColumn(ops, plan.schema.columns, true, op, seen, rows, FastResult(ops, plan.schema.columns, op, fast));
    }
  }

  lemma SlotsGrouped(ops: FloatOps, plan: ScanPlan, fp: FastPlan, init: seq<FastState>, read: seq<Tuple>, rows: seq<Row>)
    requires Planned(plan) && Comparable(plan) && FastPlanOf(plan) == Some(fp) && FitRows(plan, read)
    requires FastInitialStates(plan) == Some(init) && Alike(plan, read, rows)
    ensures var answers := FastResultMap(ops, plan, fp, init, read);
      GroupsMean(ops, plan, true, rows, answers) && FastRows(ops, plan, GroupRows(FastGrouper(ops, plan, fp, init), read, map[])) == KeyedRows(answers)
  {
    hide Planned, Comparable, FastPlanOf, FitRows, FastInitialStates, Alike, AllMean, GroupRows, FastRows, FastFinishAll, FoldRows, FastGrouper, Groups, Tuples, Members;
    GroupsAlike(plan, read, rows);
    FastGroupsAre(ops, plan, fp, init, read);
    forall g | g in Groups(plan, rows)
      ensures AllMean(ops, plan, true, RowsIn(plan, rows, g), FastResultMap(ops, plan, fp, init, read)[g])
    {
      MembersAlike(plan, read, rows, g);
      MembersFit(plan, read, g);
      SlotsAllMean(ops, plan, fp, init, RowsOfGroup(plan, read, g), RowsIn(plan, rows, g));
    }
  }

  lemma FastAnswers(ops: FloatOps, plan: ScanPlan, fp: FastPlan, records: seq<Record>)
    requires Planned(plan) && SlotsCompare(plan) && FastPlanOf(plan) == Some(fp)
    requires forall i :: 0 <= i < |records| ==> InTable(plan, records[i]) && SlotsRead(plan, records[i])
    ensures var out := FastOutput(ops, plan, fp, Delivered(plan, records));
      out.Ok? && Answers(ops, plan, true, MatchingRows(plan, records), out.value)
  {
    hide Planned, SlotsCompare, InTable, SlotsRead, Stored, Comparable, FastInitialStates, Alike, ProjectedRecord, MatchedRows, MatchingRows, AllMean;
    hide FastUngrouped, FastGrouped, FastRows, FastFinishAll, FoldRows, GroupRows, FitRows, FastGroupedOutput, GroupsMean;
    FastComparable(plan, fp);
    InitialStatesExist(plan);
    MatchedAlike(plan, records);
    assert Delivered(plan, records) == records;
    hide FastPlanOf, Delivered;
    forall i | 0 <= i < |records| ensures Stored(plan, records[i]) {
      SlotsStored(plan, fp, records[i]);
    }
    MatchedFit(plan, records);
    var init, read, rows := FastInitialStates(plan).value, MatchedRows(plan, records), MatchingRows(plan, records);
    if plan.groupIndices == [] {
      FastUngroupedScan(ops, plan, fp, records, NullSlots(|plan.required|), [], init);
      FastFoldNothing(ops, plan, fp, init);
      assert [] + read == read;
      SlotsAllMean(ops, plan, fp, init, read, rows);
    } else {
      FastGroupedScan(ops, plan, fp, init, records, NullSlots(|plan.required|), map[]);
      SlotsGrouped(ops, plan, fp, init, read, rows);
      GroupedOutputExists(ops, plan, GroupRows(FastGrouper(ops, plan, fp, init), read, map[]));
    }
  }

  lemma FastFoldNothing(ops: FloatOps, plan: ScanPlan, fp: FastPlan, init: seq<FastState>)
    ensures FoldRows(FastGrouper(ops, plan, fp, init), []) == init
  {
  }

  // ---------------------------------------------------------------------------------------------
  // Counting keys.

  lemma {:induction false} NoNulls(c: nat, rows: seq<Row>)
    requires forall i :: 0 <= i < |rows| ==> !rows[i](c).Null?
    ensures |NonNull(c, rows)| == |rows|
    decreases |rows|
  {
    if rows != [] {
      NoNulls(c, rows[..|rows| - 1]);
    }
  }

  lemma {:induction false} AllSatisfy(plan: ScanPlan, records: seq<Record>)
    requires plan.filters == []
    ensures |MatchingRows(plan, records)| == |records|
    decreases |records|
  {
    hide StoredRow;
    if records != [] {
      AllSatisfy(plan, records[1..]);
    }
  }

  lemma KeyNotNull(plan: ScanPlan, records: seq<Record>, c: nat, i: nat)
    requires OnlyKey(plan) && Planned(plan) && c in plan.required && i < |MatchingRows(plan, records)|
    requires forall j :: 0 <= j < |records| ==> InTable(plan, records[j])
    ensures !MatchingRows(plan, records)[i](c).Null?
  {
    hide DecodeRow, MatchingRows, KeyOf, KeySized, RowKey, ReadsOnly;
    EveryRowStored(plan, records, i);
    var j :| 0 <= j < |records| && MatchingRows(plan, records)[i] == StoredRow(plan, records[j]);
    assert InTable(plan, records[j]);
    var o :| 0 <= o < |plan.required| && plan.required[o] == c;
    assert plan.schema.columns[c].name == plan.schema.primaryKey;
  }

  lemma CountAnswers(ops: FloatOps, plan: ScanPlan, records: seq<Record>)
    requires Planned(plan) && OnlyKey(plan) && plan.groupIndices == [] && !NeedsKeyValues(plan)
    requires forall i :: 0 <= i < |records| ==> InTable(plan, records[i])
    ensures Answers(ops, plan, false, MatchingRows(plan, records), {FinishAll(ops, CountedStates(plan, |records|))})
  {
    hide InTable, MatchingRows, WrapI64, IsNumber, NonNull, ReadsOnly;
    var rows := MatchingRows(plan, records);
    AllSatisfy(plan, records);
    WrapIsNumber(|records|);
    var answers := FinishAll(ops, CountedStates(plan, |records|));
    forall i | 0 <= i < |plan.aggregates| ensures Means(ops, plan.schema.columns, false, plan.aggregates[i], rows, answers[i]) {
      var op := plan.aggregates[i];
      if op.CountColumn? {
        forall j | 0 <= j < |rows| ensures !rows[j](op.column).Null? {
          KeyNotNull(plan, records, op.column, j);
        }
        NoNulls(op.column, rows);
      }
    }
    assert AllMean(ops, plan, false, rows, answers);
  }

  // ---------------------------------------------------------------------------------------------
  // The whole scan.

  /**
   * Over every table and for every plan, whether keys are counted, keys scanned, slots or values: without groups one
   * row of answers, with groups one row for each distinct group of the matching rows, and every aggregate answers
   * what it means over the stored values of its rows.
   */
  lemma OutputAnswers(ops: FloatOps, plan: ScanPlan, records: seq<Record>)
    requires Planned(plan) && Extremes(plan)
    requires forall i :: 0 <= i < |records| ==> InTable(plan, records[i]) && Regular(plan, StoredRow(plan, records[i]))
    requires FastPlanOf(plan).Some? ==> SlotsCompare(plan) && forall i :: 0 <= i < |records| ==> SlotsRead(plan, records[i])
    ensures var out := AggregateOutput(ops, plan, Delivered(plan, records));
      out.Ok? && Answers(ops, plan, FastPlanOf(plan).Some?, MatchingRows(plan, records), out.value)
  {
    hide Planned, Extremes, InTable, Regular, SlotsCompare, SlotsRead, GeneralOutput, FastOutput, Answers, MatchingRows, Delivered, FinishAll, CountedStates;
    hide AllFastNumeric, StoredRow, NeedsKeyValues;
    if OnlyKey(plan) && plan.groupIndices == [] && !NeedsKeyValues(plan) {
      CountAnswers(ops, plan, records);
    } else if FastPlanOf(plan).None? {
      GeneralAnswers(ops, plan, records);
    } else {
      FastAnswers(ops, plan, FastPlanOf(plan).value, records);
    }
  }
}
