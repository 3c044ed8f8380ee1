/** The fast aggregate scan refines the projected one: same groups, and the same results exactly when stated. */
module AggregateAgreement {
  import opened Basics
  import opened Bytes
  import opened Values
  import opened TupleCodec
  import opened RowFormat
  import opened RowProjection
  import opened FastNumericDecode
  import opened Predicates
  import opened FastPredicates
  import opened SlotComparison
  import opened GroupKeys
  import opened Grouping
  import opened Aggregates
  import opened FloatAggregates
  import opened AggregateScan

  // ---------------------------------------------------------------------------------------------
  // Plans and records that both paths can run on.

  /** Distinct column ids and names, filters that compare alike, groups and aggregates over columns with numeric slots. */
  ghost predicate Comparable(plan: ScanPlan) {
    var columns := plan.schema.columns;
    && DistinctIds(columns) && DistinctNames(columns) && DistinctInRange(columns, plan.required) && AllFastNumeric(plan)
    && (forall i :: 0 <= i < |plan.filters| ==> AgreeingFilter(plan.filters[i], columns, NoParse))
    && (forall i :: 0 <= i < |plan.groupIndices| ==>
        plan.groupIndices[i] < |columns| && FastNumericType(columns[plan.groupIndices[i]].dataType))
    && (forall i :: 0 <= i < |plan.aggregates| && !plan.aggregates[i].CountStar? ==>
        plan.aggregates[i].column < |columns| && FastNumericType(columns[plan.aggregates[i].column].dataType))
  }

  /** A stored row: decodable, its values fit their columns, and its key holds the primary key it stores. */
  ghost predicate Stored(plan: ScanPlan, r: Record) {
    var columns := plan.schema.columns;
    && DecodeRow(columns, r.value).Ok? && FastReadable(columns, plan.required, r.value)
    && Project(columns, plan.required, r.value).Ok? && ProjectedRecord(plan, r) == Project(columns, plan.required, r.value)
    && FitRow(plan, ProjectedRecord(plan, r).value)
  }

  predicate FitRow(plan: ScanPlan, row: Tuple) {
    && |row| == |plan.required|
    && forall o {:trigger row[o]} :: 0 <= o < |row| ==>
        plan.required[o] < |plan.schema.columns| && Fits(plan.schema.columns[plan.required[o]].dataType, row[o])
  }

  /** The rows that satisfy the filters, in scan order. */
  function MatchedRows(plan: ScanPlan, records: seq<Record>): seq<Tuple> {
    if records == [] then []
    else
      var rest := MatchedRows(plan, records[1..]);
      match ProjectedRecord(plan, records[0])
      case Err => rest
      case Ok(row) => if AllMatch(plan.filters, ProjectedRow(plan, row)) then [row] + rest else rest
  }

  function View(v: ColumnValue): FastNumeric {
    if NumericView(v).Some? then NumericView(v).value else NullSlot
  }

  function ViewsOf(row: Tuple): (r: seq<FastNumeric>)
    ensures |r| == |row|
  {
    seq(|row|, o requires 0 <= o < |row| => View(row[o]))
  }

  // ---------------------------------------------------------------------------------------------
  // One column of one row.

  /** The projected value of a column and its slot come from the same position. */
  lemma SamePosition(plan: ScanPlan, c: nat)
    requires DistinctInRange(plan.schema.columns, plan.required) && c < |plan.schema.columns|
    ensures RequiredSlot(plan.required, c) == ColumnSlots(|plan.schema.columns|, plan.required, |plan.required|)[c]
  {
    var slots := ColumnSlots(|plan.schema.columns|, plan.required, |plan.required|);
    assert plan.required[..|plan.required|] == plan.required;
    if slots[c].Some? {
      assert plan.required[slots[c].value] == c;
    }
  }

  /** A buffer whose listed slots hold the row's views shows the row's column. */
  lemma ColumnShown(plan: ScanPlan, fp: FastPlan, row: Tuple, values: seq<FastNumeric>, c: nat)
    requires DistinctInRange(plan.schema.columns, plan.required) && FastPlanOf(plan) == Some(fp)
    requires FitRow(plan, row) && |values| == |row| && c < |plan.schema.columns|
    requires SlotOf(fp.columnSlots, c).Some? ==> values[SlotOf(fp.columnSlots, c).value] == ViewsOf(row)[SlotOf(fp.columnSlots, c).value]
    ensures var v := ProjectedRow(plan, row)(c);
      NumericView(v) == Some(InSlot(fp.columnSlots, values, c)) && Fits(plan.schema.columns[c].dataType, v)
  {
    SamePosition(plan, c);
    var s := SlotOf(fp.columnSlots, c);
    if s.Some? {
      assert Fits(plan.schema.columns[c].dataType, row[s.value]);
      ViewOfFitting(plan.schema.columns[c].dataType, row[s.value]);
    }
  }

  // ---------------------------------------------------------------------------------------------
  // Two-phase decoding.

  /** The listed slots of the buffer hold the row's views, whatever the others hold. */
  predicate SlotsFilled(values: seq<FastNumeric>, slots: seq<nat>, row: Tuple) {
    |values| == |row| && forall s :: s in slots && s < |values| ==> values[s] == ViewsOf(row)[s]
  }

  /** Decoding into any buffer makes the requested slots show the projected row. */
  lemma DecodeFills(columns: seq<ColumnSchema>, required: seq<nat>, b: bytes, row: Tuple, slots: seq<nat>, buffer: seq<FastNumeric>)
    requires DistinctIds(columns) && DistinctInRange(columns, required) && |buffer| == |required|
    requires forall o {:trigger required[o]} :: 0 <= o < |required| ==> FastNumericType(columns[required[o]].dataType)
    requires DecodeRow(columns, b).Ok? && FastReadable(columns, required, b) && Project(columns, required, b) == Ok(row)
    requires forall o {:trigger row[o]} :: 0 <= o < |row| ==> Fits(columns[required[o]].dataType, row[o])
    requires forall i :: 0 <= i < |slots| ==> slots[i] < |required|
    ensures var d := FastDecode(columns, required, b, slots, buffer);
      d.Ok? && SlotsFilled(d.value, slots, row)
  {
    hide FastDecode, Project, NumericView, Fits, DecodeRow, FastReadable;
    forall o | 0 <= o < |row| ensures NumericView(row[o]).Some? {
      ViewOfFitting(columns[required[o]].dataType, row[o]);
    }
    FastDecodeAgrees(columns, required, b, slots, buffer);
    assert slots[..|slots|] == slots;
    assert Views(row) == ViewsOf(row);
  }

  lemma DecodeShows(plan: ScanPlan, r: Record, slots: seq<nat>, buffer: seq<FastNumeric>)
    requires Comparable(plan) && Stored(plan, r) && |buffer| == |plan.required|
    requires forall i :: 0 <= i < |slots| ==> slots[i] < |plan.required|
    ensures var d := FastDecode(plan.schema.columns, plan.required, r.value, slots, buffer);
      d.Ok? && SlotsFilled(d.value, slots, ProjectedRecord(plan, r).value)
  {
    hide FastDecode, Project, NumericView, Fits, DecodeRow, FastReadable, ProjectedRecord, SlotsFilled;
    DecodeFills(plan.schema.columns, plan.required, r.value, ProjectedRecord(plan, r).value, slots, buffer);
  }

  /** Filter slots decoded, the filters decide as on the projected row. */
  lemma FirstPhase(plan: ScanPlan, fp: FastPlan, row: Tuple, values: seq<FastNumeric>)
    requires Comparable(plan) && FastPlanOf(plan) == Some(fp) && FitRow(plan, row) && SlotsFilled(values, fp.filterSlots, row)
    ensures FastAllMatch(plan, fp, values) <==> AllMatch(plan.filters, ProjectedRow(plan, row))
  {
    hide Matches, FastMatches, Fits, NumericView, AgreeingFilter, ViewsOf;
    var columns, need := plan.schema.columns, FilterSlotsAll(plan.filters, fp.columnSlots, NoParse).value;
    var get := ProjectedRow(plan, row);
    var kept := set s | s in need && s < |plan.required|;
    forall c | 0 <= c < |columns| && fp.columnSlots[c].Some? && fp.columnSlots[c].value in need
      ensures fp.columnSlots[c].value < |values| && FastNumericType(columns[c].dataType) && Fits(columns[c].dataType, get(c))
      ensures NumericView(get(c)) == Some(values[fp.columnSlots[c].value])
    {
      var s := fp.columnSlots[c].value;
      assert s in fp.filterSlots && plan.required[s] == c;
      ColumnShown(plan, fp, row, values, c);
    }
    FiltersAgree(plan.filters, columns, fp.columnSlots, values, NoParse, need, get);
  }

  // ---------------------------------------------------------------------------------------------
  // Rows of views.

  function GeneralRowsOf(plan: ScanPlan, rows: seq<Tuple>): (r: seq<Row>)
    ensures |r| == |rows|
  {
    seq(|rows|, i requires 0 <= i < |rows| => ProjectedRow(plan, rows[i]))
  }

  function FastRowsOf(fp: FastPlan, rows: seq<Tuple>): (r: seq<FastRow>)
    ensures |r| == |rows|
  {
    seq(|rows|, i requires 0 <= i < |rows| => FastRowOf(fp.columnSlots, ViewsOf(rows[i])))
  }

  function FastGrouper(ops: FloatOps, plan: ScanPlan, fp: FastPlan, init: seq<FastState>): Grouper<FastKey, seq<FastNumeric>, seq<FastState>> {
    Grouper(TupleOf(plan), g => FastGroupKey(ViewsOf(g)), g => ViewsOf(g), init,
      (states, row) => FastApplyAll(ops, plan, FastRowOf(fp.columnSlots, ViewsOf(row)), states))
  }

  /** States depend only on the slots of the aggregates' columns. */
  lemma SecondPhase(ops: FloatOps, plan: ScanPlan, fp: FastPlan, row: Tuple, values: seq<FastNumeric>, states: seq<FastState>)
    requires Comparable(plan) && FastPlanOf(plan) == Some(fp) && FitRow(plan, row) && SlotsFilled(values, fp.aggregateSlots, row)
    ensures FastApplyAll(ops, plan, FastRowOf(fp.columnSlots, values), states)
      == FastApplyAll(ops, plan, FastRowOf(fp.columnSlots, ViewsOf(row)), states)
  {
    hide FastApply, Fits, ViewsOf;
    forall i | 0 <= i < |states| && i < |plan.aggregates|
      ensures FastApply(ops, plan.aggregates[i], FastRowOf(fp.columnSlots, values), states[i])
        == FastApply(ops, plan.aggregates[i], FastRowOf(fp.columnSlots, ViewsOf(row)), states[i])
    {
      var op := plan.aggregates[i];
      if !op.CountStar? {
        assert SlotOf(fp.columnSlots, op.column).value in fp.aggregateSlots;
      }
      SameColumnSameStep(ops, op, FastRowOf(fp.columnSlots, values), FastRowOf(fp.columnSlots, ViewsOf(row)), states[i]);
    }
  }

  lemma SameColumnSameStep(ops: FloatOps, op: AggregateOp, a: FastRow, b: FastRow, s: FastState)
    requires !op.CountStar? ==> a(op.column) == b(op.column)
    ensures FastApply(ops, op, a, s) == FastApply(ops, op, b, s)
  {
    hide AddF64, WrapI64, FastCmp;
  }

  /** The group slots hold the views of the group tuple. */
  lemma GroupShown(plan: ScanPlan, fp: FastPlan, row: Tuple, values: seq<FastNumeric>)
    requires Comparable(plan) && FastPlanOf(plan) == Some(fp) && FitRow(plan, row) && SlotsFilled(values, fp.groupSlots, row)
    ensures SlotsAt(values, fp.groupSlots) == ViewsOf(GroupTuple(plan, row))
  {
    hide Fits, NumericView;
    forall i | 0 <= i < |plan.groupIndices|
      ensures SlotAt(values, fp.groupSlots[i]) == View(ProjectedRow(plan, row)(plan.groupIndices[i]))
    {
      var c := plan.groupIndices[i];
      assert SlotOf(fp.columnSlots, c) == Some(fp.groupSlots[i]) && fp.groupSlots[i] in fp.groupSlots;
      ColumnShown(plan, fp, row, values, c);
    }
  }

  lemma FastStepIsGroupStep(ops: FloatOps, plan: ScanPlan, fp: FastPlan, init: seq<FastState>, row: Tuple, values: seq<FastNumeric>, groups: FastGroups)
    requires Comparable(plan) && FastPlanOf(plan) == Some(fp) && FitRow(plan, row)
    requires SlotsFilled(values, fp.groupSlots, row) && SlotsFilled(values, fp.aggregateSlots, row)
    ensures FastStep(ops, plan, fp, init, values, groups) == GroupStep(FastGrouper(ops, plan, fp, init), row, groups)
  {
    hide FastGroupKey, FastApplyAll, SlotsAt, ViewsOf, Comparable, FitRow, SlotsFilled;
    GroupShown(plan, fp, row, values);
    SecondPhase(ops, plan, fp, row, values, init);
    var k := FastGroupKey(SlotsAt(values, fp.groupSlots));
    if k in groups {
      SecondPhase(ops, plan, fp, row, values, groups[k].1);
    }
  }

  /** Matched slots are the group slots and the aggregate slots. */
  lemma MatchedCovers(plan: ScanPlan, fp: FastPlan, row: Tuple, values: seq<FastNumeric>)
    requires FastPlanOf(plan) == Some(fp) && |row| == |plan.required| && SlotsFilled(values, fp.matchedSlots, row)
    ensures SlotsFilled(values, fp.groupSlots, row) && SlotsFilled(values, fp.aggregateSlots, row)
  {
    hide ViewsOf;
    var a := AggregateSlots(fp.columnSlots, plan.aggregates).value;
    forall s | s in fp.groupSlots && s < |plan.required| ensures s in fp.matchedSlots {
      assert s in (set s | s in fp.groupSlots) + a;
    }
    forall s | s in fp.aggregateSlots ensures s in fp.matchedSlots {
      assert s in (set s | s in fp.groupSlots) + a;
    }
  }

  // ---------------------------------------------------------------------------------------------
  // Whole scans: each path folds the matched rows, and nothing else.

  /** One record on the fast path: the filters decide as on the projected row, then the wanted slots show it. */
  lemma FastRecord(plan: ScanPlan, fp: FastPlan, r: Record, slots: seq<nat>, buffer: seq<FastNumeric>)
    requires Comparable(plan) && FastPlanOf(plan) == Some(fp) && Stored(plan, r) && |buffer| == |plan.required|
    requires forall i :: 0 <= i < |slots| ==> slots[i] < |plan.required|
    ensures ProjectedRecord(plan, r).Ok? && FitRow(plan, ProjectedRecord(plan, r).value)
    ensures var row := ProjectedRecord(plan, r).value;
      var first := FastDecode(plan.schema.columns, plan.required, r.value, fp.filterSlots, buffer);
      && |row| == |plan.required| && first.Ok? && (FastAllMatch(plan, fp, first.value) <==> AllMatch(plan.filters, ProjectedRow(plan, row)))
      && var second := FastDecode(plan.schema.columns, plan.required, r.value, slots, first.value);
      second.Ok? && SlotsFilled(second.value, slots, row)
  {
    hide FastDecode, Project, ProjectedRecord, FastAllMatch, AllMatch, Comparable, SlotsFilled;
    var row := ProjectedRecord(plan, r).value;
    SlotsInRange(plan, fp);
    hide FastPlanOf;
    DecodeShows(plan, r, fp.filterSlots, buffer);
    var first := FastDecode(plan.schema.columns, plan.required, r.value, fp.filterSlots, buffer);
    FirstPhase(plan, fp, row, first.value);
    DecodeShows(plan, r, slots, first.value);
  }

  lemma {:induction false} FastGroupedScan(ops: FloatOps, plan: ScanPlan, fp: FastPlan, init: seq<FastState>,
      records: seq<Record>, buffer: seq<FastNumeric>, groups: FastGroups)
    requires Comparable(plan) && FastPlanOf(plan) == Some(fp) && |buffer| == |plan.required|
    requires forall i :: 0 <= i < |records| ==> Stored(plan, records[i])
    ensures FastGrouped(ops, plan, fp, init, records, buffer, groups)
      == Ok(GroupRows(FastGrouper(ops, plan, fp, init), MatchedRows(plan, records), groups))
    decreases |records|
  {
    hide FastDecode, ProjectedRecord, FastStep, GroupStep, FastGrouper, FastAllMatch, AllMatch, SlotsFilled, FitRow, Comparable, Stored;
    if records != [] {
      var r := records[0];
      SlotsInRange(plan, fp);
      hide FastPlanOf;
      FastRecord(plan, fp, r, fp.matchedSlots, buffer);
      var row := ProjectedRecord(plan, r).value;
      var b1 := FastDecode(plan.schema.columns, plan.required, r.value, fp.filterSlots, buffer).value;
      if AllMatch(plan.filters, ProjectedRow(plan, row)) {
        var b2 := FastDecode(plan.schema.columns, plan.required, r.value, fp.matchedSlots, b1).value;
        MatchedCovers(plan, fp, row, b2);
        FastStepIsGroupStep(ops, plan, fp, init, row, b2, groups);
        FastGroupedScan(ops, plan, fp, init, records[1..], b2, FastStep(ops, plan, fp, init, b2, groups));
        assert ([row] + MatchedRows(plan, records[1..]))[1..] == MatchedRows(plan, records[1..]);
      } else {
        FastGroupedScan(ops, plan, fp, init, records[1..], b1, groups);
      }
    }
  }

  lemma SlotsInRange(plan: ScanPlan, fp: FastPlan)
    requires FastPlanOf(plan) == Some(fp)
    ensures forall i :: 0 <= i < |fp.filterSlots| ==> fp.filterSlots[i] < |plan.required|
    ensures forall i :: 0 <= i < |fp.matchedSlots| ==> fp.matchedSlots[i] < |plan.required|
    ensures forall i :: 0 <= i < |fp.aggregateSlots| ==> fp.aggregateSlots[i] < |plan.required|
  {
  }

  lemma RowLength(plan: ScanPlan, row: Tuple)
    requires FitRow(plan, row)
    ensures |row| == |plan.required|
  {
  }

  lemma {:induction false} GeneralGroupedScan(ops: FloatOps, plan: ScanPlan, records: seq<Record>, groups: GeneralGroups)
    requires forall i :: 0 <= i < |records| ==> ProjectedRecord(plan, records[i]).Ok?
    ensures GeneralGrouped(ops, plan, records, groups) == Ok(GroupRows(GeneralGrouper(ops, plan), MatchedRows(plan, records), groups))
    decreases |records|
  {
    hide ProjectedRecord, GroupStep, GeneralGrouper, AllMatch;
    if records != [] {
      var row := ProjectedRecord(plan, records[0]).value;
      if AllMatch(plan.filters, ProjectedRow(plan, row)) {
        GeneralGroupedScan(ops, plan, records[1..], GroupStep(GeneralGrouper(ops, plan), row, groups));
        assert ([row] + MatchedRows(plan, records[1..]))[1..] == MatchedRows(plan, records[1..]);
      } else {
        GeneralGroupedScan(ops, plan, records[1..], groups);
      }
    }
  }

  lemma {:induction false} FastUngroupedScan(ops: FloatOps, plan: ScanPlan, fp: FastPlan, records: seq<Record>, buffer: seq<FastNumeric>,
      seen: seq<Tuple>, init: seq<FastState>)
    requires Comparable(plan) && FastPlanOf(plan) == Some(fp) && |buffer| == |plan.required|
    requires forall i :: 0 <= i < |records| ==> Stored(plan, records[i])
    ensures FastUngrouped(ops, plan, fp, records, buffer, FoldRows(FastGrouper(ops, plan, fp, init), seen))
      == Ok(FoldRows(FastGrouper(ops, plan, fp, init), seen + MatchedRows(plan, records)))
    decreases |records|
  {
    hide FastDecode, ProjectedRecord, FastAllMatch, AllMatch, SlotsFilled, FitRow, Comparable, FoldRows, FastApplyAll, Stored;
    var gr := FastGrouper(ops, plan, fp, init);
    if records == [] {
      assert seen + [] == seen;
    } else {
      var r := records[0];
      SlotsInRange(plan, fp);
      hide FastPlanOf;
      FastRecord(plan, fp, r, fp.aggregateSlots, buffer);
      var row := ProjectedRecord(plan, r).value;
      var b1 := FastDecode(plan.schema.columns, plan.required, r.value, fp.filterSlots, buffer).value;
      if AllMatch(plan.filters, ProjectedRow(plan, row)) {
        var b2 := FastDecode(plan.schema.columns, plan.required, r.value, fp.aggregateSlots, b1).value;
        SecondPhase(ops, plan, fp, row, b2, FoldRows(gr, seen));
        FoldAppend(gr, seen, row);
        FastUngroupedScan(ops, plan, fp, records[1..], b2, seen + [row], init);
        assert seen + ([row] + MatchedRows(plan, records[1..])) == seen + [row] + MatchedRows(plan, records[1..]);
      } else {
        FastUngroupedScan(ops, plan, fp, records[1..], b1, seen, init);
      }
    }
  }

  lemma {:induction false} GeneralUngroupedScan(ops: FloatOps, plan: ScanPlan, records: seq<Record>, seen: seq<Tuple>)
    requires forall i :: 0 <= i < |records| ==> ProjectedRecord(plan, records[i]).Ok?
    ensures GeneralUngrouped(ops, plan, records, FoldRows(GeneralGrouper(ops, plan), seen))
      == Ok(FoldRows(GeneralGrouper(ops, plan), seen + MatchedRows(plan, records)))
    decreases |records|
  {
    hide ProjectedRecord, AllMatch, FoldRows, ApplyAll;
    var gr := GeneralGrouper(ops, plan);
    if records == [] {
      assert seen + [] == seen;
    } else {
      var row := ProjectedRecord(plan, records[0]).value;
      if AllMatch(plan.filters, ProjectedRow(plan, row)) {
        FoldAppend(gr, seen, row);
        GeneralUngroupedScan(ops, plan, records[1..], seen + [row]);
        assert seen + ([row] + MatchedRows(plan, records[1..])) == seen + [row] + MatchedRows(plan, records[1..]);
      } else {
        GeneralUngroupedScan(ops, plan, records[1..], seen);
      }
    }
  }

  // ---------------------------------------------------------------------------------------------
  // Folding rows is folding every aggregate.

  lemma {:induction false} GeneralFold(ops: FloatOps, plan: ScanPlan, rows: seq<Tuple>)
    ensures var states := FoldRows(GeneralGrouper(ops, plan), rows);
      |states| == |plan.aggregates| &&
      forall i {:trigger states[i]} :: 0 <= i < |states| ==> states[i] == Folded(ops, plan.aggregates[i], GeneralRowsOf(plan, rows))
    decreases |rows|
  {
    hide Apply;
    if rows != [] {
      var k := |rows| - 1;
      GeneralFold(ops, plan, rows[..k]);
      assert GeneralRowsOf(plan, rows)[..k] == GeneralRowsOf(plan, rows[..k]);
    }
  }

  lemma {:induction false} FastFold(ops: FloatOps, plan: ScanPlan, fp: FastPlan, init: seq<FastState>, rows: seq<Tuple>)
    requires FastInitialStates(plan) == Some(init)
    ensures var states := FoldRows(FastGrouper(ops, plan, fp, init), rows);
      |states| == |plan.aggregates| &&
      forall i {:trigger states[i]} :: 0 <= i < |states| ==>
        states[i] == FastFolded(ops, plan.schema.columns, plan.aggregates[i], FastRowsOf(fp, rows))
    decreases |rows|
  {
    hide FastApply;
    if rows != [] {
      var k := |rows| - 1;
      FastFold(ops, plan, fp, init, rows[..k]);
      assert FastRowsOf(fp, rows)[..k] == FastRowsOf(fp, rows[..k]);
    }
  }

  predicate FitRows(plan: ScanPlan, rows: seq<Tuple>) {
    forall i :: 0 <= i < |rows| ==> FitRow(plan, rows[i])
  }

  /** The results of all aggregates over some rows, on either path. */
  function GeneralResults(ops: FloatOps, plan: ScanPlan, rows: seq<Tuple>): Tuple {
    seq(|plan.aggregates|, i requires 0 <= i < |plan.aggregates| => AggregateResult(ops, plan.aggregates[i], GeneralRowsOf(plan, rows)))
  }

  /** Every aggregate is one whose two results are the same over these rows. */
  predicate SameAll(plan: ScanPlan, rows: seq<Tuple>) {
    forall i :: 0 <= i < |plan.aggregates| ==> SameOverColumn(plan.schema.columns, plan.aggregates[i], GeneralRowsOf(plan, rows))
  }

  lemma AggregateInputs(plan: ScanPlan, fp: FastPlan, rows: seq<Tuple>, i: nat)
    requires Comparable(plan) && FastPlanOf(plan) == Some(fp) && FitRows(plan, rows) && i < |plan.aggregates|
    ensures NumericInput(plan.schema.columns, plan.aggregates[i], GeneralRowsOf(plan, rows), FastRowsOf(fp, rows))
  {
    hide Fits, NumericView, FitRow, FastPlanOf;
    var op := plan.aggregates[i];
    if !op.CountStar? {
      forall j | 0 <= j < |rows|
        ensures Fits(plan.schema.columns[op.column].dataType, GeneralRowsOf(plan, rows)[j](op.column))
        ensures NumericView(GeneralRowsOf(plan, rows)[j](op.column)) == Some(FastRowsOf(fp, rows)[j](op.column))
      {
        RowLength(plan, rows[j]);
        AggregateColumnShown(plan, fp, rows[j], op.column);
      }
    }
  }

  lemma AggregateColumnShown(plan: ScanPlan, fp: FastPlan, row: Tuple, c: nat)
    requires Comparable(plan) && FastPlanOf(plan) == Some(fp) && FitRow(plan, row) && c < |plan.schema.columns|
    ensures Fits(plan.schema.columns[c].dataType, ProjectedRow(plan, row)(c))
    ensures NumericView(ProjectedRow(plan, row)(c)) == Some(FastRowOf(fp.columnSlots, ViewsOf(row))(c))
  {
    hide Fits, NumericView;
    ColumnShown(plan, fp, row, ViewsOf(row), c);
  }

  /** Finished states of the two paths over the same rows are the same exactly when every aggregate is. */
  lemma ResultsAgree(ops: FloatOps, plan: ScanPlan, fp: FastPlan, init: seq<FastState>, rows: seq<Tuple>)
    requires Comparable(plan) && FastPlanOf(plan) == Some(fp) && FitRows(plan, rows) && FastInitialStates(plan) == Some(init)
    ensures FinishAll(ops, FoldRows(GeneralGrouper(ops, plan), rows)) == GeneralResults(ops, plan, rows)
    ensures FastFinishAll(ops, plan, FoldRows(FastGrouper(ops, plan, fp, init), rows)) == GeneralResults(ops, plan, rows)
      <==> SameAll(plan, rows)
  {
    hide Folded, FastFolded, FoldRows, FastFinish, Finish, FitRows, Comparable, NumericInput, SameOverColumn, GeneralGrouper, FastGrouper;
    GeneralFold(ops, plan, rows);
    FastFold(ops, plan, fp, init, rows);
    var g, f := FoldRows(GeneralGrouper(ops, plan), rows), FoldRows(FastGrouper(ops, plan, fp, init), rows);
    var finished := FastFinishAll(ops, plan, f);
    forall i | 0 <= i < |plan.aggregates|
      ensures finished[i] == GeneralResults(ops, plan, rows)[i]
        <==> SameOverColumn(plan.schema.columns, plan.aggregates[i], GeneralRowsOf(plan, rows))
    {
      AggregateInputs(plan, fp, rows, i);
      ColumnAgreesExactly(ops, plan.schema.columns, plan.aggregates[i], GeneralRowsOf(plan, rows), FastRowsOf(fp, rows));
      assert f[i] == FastFolded(ops, plan.schema.columns, plan.aggregates[i], FastRowsOf(fp, rows));
    }
    forall i | 0 <= i < |g| ensures FinishAll(ops, g)[i] == GeneralResults(ops, plan, rows)[i] {
      assert g[i] == Folded(ops, plan.aggregates[i], GeneralRowsOf(plan, rows));
    }
  }

  // ---------------------------------------------------------------------------------------------
  // The main results.

  /** Every slot a plan's aggregates need has a first state. */
  lemma InitialStatesExist(plan: ScanPlan)
    requires Comparable(plan)
    ensures FastInitialStates(plan).Some?
  {
    assert forall i :: 0 <= i < |plan.aggregates| ==> FastInitialState(plan.schema.columns, plan.aggregates[i]).Some?;
  }

  lemma {:induction false} MatchedFit(plan: ScanPlan, records: seq<Record>)
    requires forall i :: 0 <= i < |records| ==> Stored(plan, records[i])
    ensures FitRows(plan, MatchedRows(plan, records))
    decreases |records|
  {
    hide FitRow, DecodeRow, FastReadable, Project, ProjectedRecord, AllMatch;
    if records != [] {
      assert Stored(plan, records[0]);
      MatchedFit(plan, records[1..]);
    }
  }

  /**
   * Without groups: for every stream of stored records the two scans succeed, whatever the buffer held, and
   * give the same results exactly when every aggregate is one that comes out the same.
   */
  lemma UngroupedScansAgree(ops: FloatOps, plan: ScanPlan, fp: FastPlan, records: seq<Record>, buffer: seq<FastNumeric>)
    requires Comparable(plan) && FastPlanOf(plan) == Some(fp) && |buffer| == |plan.required|
    requires forall i :: 0 <= i < |records| ==> Stored(plan, records[i])
    ensures FastInitialStates(plan).Some?
    ensures var rows := MatchedRows(plan, records);
      var general := GeneralUngrouped(ops, plan, records, InitialStates(plan));
      var fast := FastUngrouped(ops, plan, fp, records, buffer, FastInitialStates(plan).value);
      && general.Ok? && FinishAll(ops, general.value) == GeneralResults(ops, plan, rows)
      && fast.Ok? && (FastFinishAll(ops, plan, fast.value) == FinishAll(ops, general.value) <==> SameAll(plan, rows))
  {
    hide FinishAll, FastFinishAll, Comparable, FastPlanOf, MatchedRows, GeneralUngrouped, FastUngrouped;
    InitialStatesExist(plan);
    MatchedFit(plan, records);
    var init, rows := FastInitialStates(plan).value, MatchedRows(plan, records);
    assert forall i :: 0 <= i < |records| ==> Stored(plan, records[i]) ==> ProjectedRecord(plan, records[i]).Ok?;
    hide Stored;
    GeneralUngroupedScan(ops, plan, records, []);
    FastUngroupedScan(ops, plan, fp, records, buffer, [], init);
    assert [] + rows == rows;
    ResultsAgree(ops, plan, fp, init, rows);
  }

  /** A group tuple: numbers of the group columns' types, or NULL. */
  predicate FitTuple(plan: ScanPlan, g: Tuple) {
    && |g| == |plan.groupIndices|
    && forall i {:trigger g[i]} :: 0 <= i < |g| ==>
        plan.groupIndices[i] < |plan.schema.columns| && FastNumericType(plan.schema.columns[plan.groupIndices[i]].dataType)
        && Fits(plan.schema.columns[plan.groupIndices[i]].dataType, g[i])
  }

  lemma GroupTupleFits(plan: ScanPlan, fp: FastPlan, row: Tuple)
    requires Comparable(plan) && FastPlanOf(plan) == Some(fp) && FitRow(plan, row)
    ensures FitTuple(plan, GroupTuple(plan, row))
  {
    hide Fits, NumericView, FitRow, FastPlanOf;
    forall i | 0 <= i < |plan.groupIndices|
      ensures Fits(plan.schema.columns[plan.groupIndices[i]].dataType, ProjectedRow(plan, row)(plan.groupIndices[i]))
    {
      AggregateColumnShown(plan, fp, row, plan.groupIndices[i]);
    }
  }

  lemma {:induction false} NumbersAreKindless(g: Tuple)
    requires forall i :: 0 <= i < |g| ==> g[i].Null? || IsInt(g[i]) || IsFloat(g[i])
    ensures KindlessAll(g) == g && AllSized(g)
  {
    if g != [] {
      NumbersAreKindless(g[1..]);
      assert g == [g[0]] + g[1..];
    }
  }

  lemma TupleIsNumbers(plan: ScanPlan, g: Tuple)
    requires FitTuple(plan, g)
    ensures forall i :: 0 <= i < |g| ==> g[i].Null? || IsInt(g[i]) || IsFloat(g[i])
  {
  }

  /** Either key tells any two group tuples of the plan apart. */
  lemma GroupKeysFaithful(plan: ScanPlan, g: Tuple, h: Tuple)
    requires FitTuple(plan, g) && FitTuple(plan, h)
    ensures TypedGroupKey(g) == TypedGroupKey(h) ==> g == h
    ensures FastGroupKey(ViewsOf(g)) == FastGroupKey(ViewsOf(h)) ==> g == h
  {
    hide TypedGroupKey, FastGroupKey, KindlessAll, AllSized;
    TupleIsNumbers(plan, g);
    TupleIsNumbers(plan, h);
    NumbersAreKindless(g);
    NumbersAreKindless(h);
    GroupKeyFaithful(g, h);
    FastGroupKeyFaithful(ViewsOf(g), ViewsOf(h));
    if ViewsOf(g) == ViewsOf(h) {
      forall i | 0 <= i < |g| ensures g[i] == h[i] {
        assert ViewsOf(g)[i] == ViewsOf(h)[i];
        ViewInjective(plan.schema.columns[plan.groupIndices[i]].dataType, g[i], h[i]);
      }
    }
  }

  lemma ViewInjective(t: DataType, v: ColumnValue, w: ColumnValue)
    requires FastNumericType(t) && Fits(t, v) && Fits(t, w) && View(v) == View(w)
    ensures v == w
  {
    hide NumericView, FromSlot, Fits;
    IeeeExists();
    NumberFromSlot(ExactOnZeros(), t, v);
    NumberFromSlot(ExactOnZeros(), t, w);
  }

  lemma FastGroupValuesOfViews(ops: FloatOps, plan: ScanPlan, g: Tuple)
    requires FitTuple(plan, g)
    requires forall i :: 0 <= i < |plan.groupIndices| ==> plan.groupIndices[i] < |plan.schema.columns|
    ensures FastGroupValues(ops, plan, ViewsOf(g)) == Ok(g)
  {
    hide FromSlot, Fits, NumericView;
    forall i | 0 <= i < |g| ensures FromSlot(ops, plan.schema.columns[plan.groupIndices[i]].dataType, ViewsOf(g)[i]) == g[i] {
      NumberFromSlot(ops, plan.schema.columns[plan.groupIndices[i]].dataType, g[i]);
    }
    assert FastGroupValues(ops, plan, ViewsOf(g)).value == g;
  }

  function GroupsOf(plan: ScanPlan, rows: seq<Tuple>): set<Tuple> {
    Tuples(TupleOf(plan), rows)
  }

  function RowsOfGroup(plan: ScanPlan, rows: seq<Tuple>, g: Tuple): seq<Tuple> {
    Members(TupleOf(plan), rows, g)
  }

  /** The aggregates of every group, by definition. */
  function ResultMap(ops: FloatOps, plan: ScanPlan, rows: seq<Tuple>): map<Tuple, Tuple> {
    map g | g in GroupsOf(plan, rows) :: GeneralResults(ops, plan, RowsOfGroup(plan, rows, g))
  }

  /** Output rows: each group tuple followed by its results. */
  function KeyedRows(m: map<Tuple, Tuple>): set<Tuple> {
    set g | g in m :: g + m[g]
  }

  /** The output of a grouped aggregation by definition: one row per distinct group tuple. */
  function GroupedResults(ops: FloatOps, plan: ScanPlan, rows: seq<Tuple>): set<Tuple> {
    KeyedRows(ResultMap(ops, plan, rows))
  }

  lemma GroupsFit(plan: ScanPlan, fp: FastPlan, rows: seq<Tuple>)
    requires Comparable(plan) && FastPlanOf(plan) == Some(fp) && FitRows(plan, rows)
    ensures forall g :: g in GroupsOf(plan, rows) ==> FitTuple(plan, g)
  {
    hide FitRow, FitTuple, Comparable, FastPlanOf, GroupTuple;
    forall g | g in GroupsOf(plan, rows) ensures FitTuple(plan, g) {
      var i :| 0 <= i < |rows| && TupleOf(plan)(rows[i]) == g;
      GroupTupleFits(plan, fp, rows[i]);
    }
  }

  lemma MembersFit(plan: ScanPlan, rows: seq<Tuple>, g: Tuple)
    requires FitRows(plan, rows)
    ensures FitRows(plan, RowsOfGroup(plan, rows, g))
  {
    hide FitRow, Members;
    var members := RowsOfGroup(plan, rows, g);
    forall i | 0 <= i < |members| ensures FitRow(plan, members[i]) {
      assert members[i] in members;
    }
  }

  /** The projected path's groups are the definition's. */
  lemma GeneralGroupsExact(ops: FloatOps, plan: ScanPlan, fp: FastPlan, init: seq<FastState>, rows: seq<Tuple>)
    requires Comparable(plan) && FastPlanOf(plan) == Some(fp) && FitRows(plan, rows) && FastInitialStates(plan) == Some(init)
    ensures var groups := GroupRows(GeneralGrouper(ops, plan), rows, map[]);
      GeneralRows(ops, groups) == GroupedResults(ops, plan, rows) && |groups| == |GroupsOf(plan, rows)|
  {
    hide FitTuple, TypedGroupKey, FastGroupKey, FitRows, Comparable, FastPlanOf, Members, FoldRows, GeneralResults, FinishAll, Tuples;
    var gr, all := GeneralGrouper(ops, plan), GroupsOf(plan, rows);
    GroupsFit(plan, fp, rows);
    forall g, h | g in all && h in all && gr.key(g) == gr.key(h) ensures g == h {
      GroupKeysFaithful(plan, g, h);
    }
    GroupRowsExact(gr, rows);
    var groups := GroupRows(gr, rows, map[]);
    GroupCount(gr, rows, groups);
    hide GroupRows;
    forall g | g in all
      ensures gr.key(g) in groups && groups[gr.key(g)].0 + FinishAll(ops, groups[gr.key(g)].1) == g + ResultMap(ops, plan, rows)[g]
    {
      MembersFit(plan, rows, g);
      ResultsAgree(ops, plan, fp, init, RowsOfGroup(plan, rows, g));
    }
    GeneralRowsByGroup(ops, gr, all, groups, ResultMap(ops, plan, rows));
  }

  lemma GeneralRowsByGroup(ops: FloatOps, gr: Grouper<bytes, Tuple, seq<State>>, all: set<Tuple>, groups: GeneralGroups, results: map<Tuple, Tuple>)
    requires results.Keys == all
    requires forall k :: k in groups ==> exists g {:trigger gr.key(g)} :: g in all && gr.key(g) == k
    requires forall g {:trigger gr.key(g)} :: g in all ==>
      gr.key(g) in groups && groups[gr.key(g)].0 + FinishAll(ops, groups[gr.key(g)].1) == g + results[g]
    ensures GeneralRows(ops, groups) == KeyedRows(results)
  {
    hide FinishAll;
    forall x | x in GeneralRows(ops, groups) ensures x in KeyedRows(results) {
      var k :| k in groups && x == groups[k].0 + FinishAll(ops, groups[k].1);
      var g :| g in all && gr.key(g) == k;
      assert g in results && x == g + results[g];
    }
    forall x | x in KeyedRows(results) ensures x in GeneralRows(ops, groups) {
      var g :| g in results && x == g + results[g];
      assert gr.key(g) in groups;
    }
  }

  /** The finished aggregates of every group on the fast path. */
  function FastResultMap(ops: FloatOps, plan: ScanPlan, fp: FastPlan, init: seq<FastState>, rows: seq<Tuple>): map<Tuple, Tuple> {
    map g | g in GroupsOf(plan, rows) ::
      FastFinishAll(ops, plan, FoldRows(FastGrouper(ops, plan, fp, init), RowsOfGroup(plan, rows, g)))
  }

  /** On the fast path, one output row per group: the group tuple and its own rows' results. */
  lemma FastGroupsAre(ops: FloatOps, plan: ScanPlan, fp: FastPlan, init: seq<FastState>, rows: seq<Tuple>)
    requires Comparable(plan) && FastPlanOf(plan) == Some(fp) && FitRows(plan, rows) && FastInitialStates(plan) == Some(init)
    ensures var groups := GroupRows(FastGrouper(ops, plan, fp, init), rows, map[]);
      |groups| == |GroupsOf(plan, rows)| && FastRows(ops, plan, groups) == KeyedRows(FastResultMap(ops, plan, fp, init, rows))
  {
    hide FitTuple, FastGroupKey, FitRows, FastPlanOf, Members, FoldRows, FastFinishAll, Tuples, ViewsOf, FastGroupValues;
    var gr, all := FastGrouper(ops, plan, fp, init), GroupsOf(plan, rows);
    GroupsFit(plan, fp, rows);
    forall g, h | g in all && h in all && gr.key(g) == gr.key(h) ensures g == h {
      GroupKeysFaithful(plan, g, h);
    }
    GroupRowsExact(gr, rows);
    var groups := GroupRows(gr, rows, map[]);
    GroupCount(gr, rows, groups);
    forall g | g in all ensures gr.key(g) in groups && FastGroupValues(ops, plan, groups[gr.key(g)].0) == Ok(g) {
      FastGroupValuesOfViews(ops, plan, g);
    }
    hide GroupRows, Comparable;
    FastRowsByGroup(ops, plan, gr, all, groups, FastResultMap(ops, plan, fp, init, rows));
  }

  lemma FastRowsByGroup(ops: FloatOps, plan: ScanPlan, gr: Grouper<FastKey, seq<FastNumeric>, seq<FastState>>, all: set<Tuple>,
      groups: FastGroups, results: map<Tuple, Tuple>)
    requires results.Keys == all
    requires forall k :: k in groups ==> exists g {:trigger gr.key(g)} :: g in all && gr.key(g) == k
    requires forall g {:trigger gr.key(g)} :: g in all ==>
      && gr.key(g) in groups && FastGroupValues(ops, plan, groups[gr.key(g)].0) == Ok(g)
      && FastFinishAll(ops, plan, groups[gr.key(g)].1) == results[g]
    ensures FastRows(ops, plan, groups) == KeyedRows(results)
  {
    hide FastFinishAll, FastGroupValues;
    forall x | x in FastRows(ops, plan, groups) ensures x in KeyedRows(results) {
      var k :| k in groups && FastGroupValues(ops, plan, groups[k].0).Ok?
        && x == FastGroupValues(ops, plan, groups[k].0).value + FastFinishAll(ops, plan, groups[k].1);
      var g :| g in all && gr.key(g) == k;
      assert g in results && x == g + results[g];
    }
    forall x | x in KeyedRows(results) ensures x in FastRows(ops, plan, groups) {
      var g :| g in results && x == g + results[g];
      assert gr.key(g) in groups;
    }
  }

  lemma GroupResultAgrees(ops: FloatOps, plan: ScanPlan, fp: FastPlan, init: seq<FastState>, rows: seq<Tuple>, g: Tuple)
    requires Comparable(plan) && FastPlanOf(plan) == Some(fp) && FitRows(plan, rows) && FastInitialStates(plan) == Some(init)
    requires g in GroupsOf(plan, rows)
    ensures |g| == |plan.groupIndices|
    ensures FastResultMap(ops, plan, fp, init, rows)[g] == ResultMap(ops, plan, rows)[g] <==> SameAll(plan, RowsOfGroup(plan, rows, g))
  {
    hide FitTuple, FitRows, FastPlanOf, Members, FoldRows, Tuples, GeneralResults, FastFinishAll, Comparable;
    GroupsFit(plan, fp, rows);
    TupleLength(plan, g);
    MembersFit(plan, rows, g);
    ResultsAgree(ops, plan, fp, init, RowsOfGroup(plan, rows, g));
  }

  /** The fast output is the definition's exactly when in every group every aggregate comes out the same. */
  lemma FastGroupsExact(ops: FloatOps, plan: ScanPlan, fp: FastPlan, init: seq<FastState>, rows: seq<Tuple>)
    requires Comparable(plan) && FastPlanOf(plan) == Some(fp) && FitRows(plan, rows) && FastInitialStates(plan) == Some(init)
    ensures var groups := GroupRows(FastGrouper(ops, plan, fp, init), rows, map[]);
      && |groups| == |GroupsOf(plan, rows)|
      && (FastRows(ops, plan, groups) == GroupedResults(ops, plan, rows) <==>
          forall g :: g in GroupsOf(plan, rows) ==> SameAll(plan, RowsOfGroup(plan, rows, g)))
  {
    hide Comparable, FastPlanOf, FitRows, FastInitialStates, GroupRows, FastRows, KeyedRows, SameAll, Tuples, Members, FoldRows;
    var fast, general := FastResultMap(ops, plan, fp, init, rows), ResultMap(ops, plan, rows);
    FastGroupsAre(ops, plan, fp, init, rows);
    forall g | g in GroupsOf(plan, rows)
      ensures |g| == |plan.groupIndices| && (fast[g] == general[g] <==> SameAll(plan, RowsOfGroup(plan, rows, g)))
    {
      GroupResultAgrees(ops, plan, fp, init, rows, g);
    }
    KeyedRowsEqual(|plan.groupIndices|, fast, general);
  }

  lemma TupleLength(plan: ScanPlan, g: Tuple)
    requires FitTuple(plan, g)
    ensures |g| == |plan.groupIndices|
  {
  }

  /** Two sets of rows that start with the same keys of one length are equal exactly when row by row they are. */
  lemma KeyedRowsEqual(n: nat, a: map<Tuple, Tuple>, b: map<Tuple, Tuple>)
    requires a.Keys == b.Keys && forall g :: g in a ==> |g| == n
    ensures KeyedRows(a) == KeyedRows(b) <==> forall g :: g in a ==> a[g] == b[g]
  {
    if KeyedRows(a) == KeyedRows(b) {
      forall g | g in a ensures a[g] == b[g] {
        assert g + a[g] in KeyedRows(b);
        var h :| h in b && h + b[h] == g + a[g];
        assert (h + b[h])[..n] == h && (g + a[g])[..n] == g;
        assert (h + b[h])[n..] == b[h] && (g + a[g])[n..] == a[g];
      }
    }
  }

  /**
   * With groups: for every stream of stored records the two scans succeed, whatever the buffer held, each
   * emits one row per distinct group, and the sets of rows are the same exactly when in every group every
   * aggregate is one that comes out the same.
   */
  lemma GroupedScansAgree(ops: FloatOps, plan: ScanPlan, fp: FastPlan, records: seq<Record>, buffer: seq<FastNumeric>)
    requires Comparable(plan) && FastPlanOf(plan) == Some(fp) && |buffer| == |plan.required|
    requires forall i :: 0 <= i < |records| ==> Stored(plan, records[i])
    ensures FastInitialStates(plan).Some?
    ensures var rows := MatchedRows(plan, records);
      var general := GeneralGrouped(ops, plan, records, map[]);
      var fast := FastGrouped(ops, plan, fp, FastInitialStates(plan).value, records, buffer, map[]);
      && general.Ok? && fast.Ok? && |general.value| == |fast.value| == |GroupsOf(plan, rows)|
      && GeneralRows(ops, general.value) == GroupedResults(ops, plan, rows)
      && (FastRows(ops, plan, fast.value) == GeneralRows(ops, general.value) <==>
          forall g :: g in GroupsOf(plan, rows) ==> SameAll(plan, RowsOfGroup(plan, rows, g)))
  {
    hide Comparable, FastPlanOf, MatchedRows, GeneralGrouped, FastGrouped, GeneralRows, FastRows, GroupedResults, GroupsOf;
    InitialStatesExist(plan);
    MatchedFit(plan, records);
    var init, rows := FastInitialStates(plan).value, MatchedRows(plan, records);
    assert forall i :: 0 <= i < |records| ==> Stored(plan, records[i]) ==> ProjectedRecord(plan, records[i]).Ok?;
    hide Stored, GroupRows, FastInitialStates, GeneralGrouper, FastGrouper;
    GeneralGroupedScan(ops, plan, records, map[]);
    FastGroupedScan(ops, plan, fp, init, records, buffer, map[]);
    GeneralGroupsExact(ops, plan, fp, init, rows);
    FastGroupsExact(ops, plan, fp, init, rows);
  }

  /** COUNT(*) over the groups adds up to the number of matching records. */
  lemma CountsAddUp(ops: FloatOps, plan: ScanPlan, rows: seq<Tuple>, groups: seq<Tuple>)
    requires |rows| < 0x8000_0000_0000_0000
    requires (forall i, j :: 0 <= i < j < |groups| ==> groups[i] != groups[j]) && forall g :: g in GroupsOf(plan, rows) ==> g in groups
    ensures CountSum(ops, plan, rows, groups) == |rows|
  {
    SizesAddUp(TupleOf(plan), rows, groups);
    CountIsSize(ops, plan, rows, groups);
  }

  function CountOf(v: ColumnValue): int {
    if v.Int64? then v.int64 else 0
  }

  function CountSum(ops: FloatOps, plan: ScanPlan, rows: seq<Tuple>, groups: seq<Tuple>): int {
    if groups == [] then 0
    else
      CountOf(AggregateResult(ops, CountStar, GeneralRowsOf(plan, RowsOfGroup(plan, rows, groups[0]))))
      + CountSum(ops, plan, rows, groups[1..])
  }

  lemma {:induction false} CountIsSize(ops: FloatOps, plan: ScanPlan, rows: seq<Tuple>, groups: seq<Tuple>)
    requires |rows| < 0x8000_0000_0000_0000
    ensures CountSum(ops, plan, rows, groups) == SizeSum(TupleOf(plan), rows, groups)
    decreases |groups|
  {
    hide Folded, Members;
    if groups != [] {
      var members := RowsOfGroup(plan, rows, groups[0]);
      MembersShorter(TupleOf(plan), rows, groups[0]);
      CountStarMeaning(ops, [], GeneralRowsOf(plan, members), seq(|members|, _ => (_ => NullSlot)));
      CountIsSize(ops, plan, rows, groups[1..]);
    }
  }

  lemma {:induction false} MembersShorter(tuple: Tuple -> Tuple, rows: seq<Tuple>, g: Tuple)
    ensures |Members(tuple, rows, g)| <= |rows|
    decreases |rows|
  {
    if rows != [] {
      MembersShorter(tuple, rows[..|rows| - 1], g);
    }
  }
}
