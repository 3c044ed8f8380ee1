/** The aggregate scans as loops over records, and the choice between them. */
module AggregateReduce {
  import opened Basics
  import opened Bytes
  import opened Values
  import opened TupleCodec
  import opened RowProjection
  import opened FastNumericDecode
  import opened RowDecoder
  import opened Predicates
  import opened FastPredicates
  import opened SlotComparison
  import opened GroupKeys
  import opened Grouping
  import opened Aggregates
  import opened AggregateScan
  import opened AggregateAgreement

  /** `build_fast_numeric_aggregate_plan`. */
  method BuildFastPlan(plan: ScanPlan) returns (r: Option<FastPlan>)
    ensures r == FastPlanOf(plan)
  {
    if plan.keyOnly || !AllFastNumeric(plan) {
      return None;
    }
    var n := |plan.required|;
    var slots: seq<Option<nat>> := seq(|plan.schema.columns|, _ => None);
    for s := 0 to n
      invariant slots == ColumnSlots(|plan.schema.columns|, plan.required, s)
    {
      if plan.required[s] < |plan.schema.columns| {
        slots := slots[plan.required[s] := Some(s)];
      }
    }
    var filterSlots, i := {}, 0;
    assert plan.filters[0..] == plan.filters;
    UnionWithNothing(FilterSlotsAll(plan.filters, slots, NoParse));
    while i < |plan.filters|
      invariant 0 <= i <= |plan.filters|
      invariant FilterSlotsAll(plan.filters, slots, NoParse) == Union(Some(filterSlots), FilterSlotsAll(plan.filters[i..], slots, NoParse))
    {
      hide FilterSlots;
      assert plan.filters[i..][1..] == plan.filters[i + 1..];
      UnionAssociative(Some(filterSlots), FilterSlots(plan.filters[i], slots, NoParse), FilterSlotsAll(plan.filters[i + 1..], slots, NoParse));
      var next := CollectFilterSlots(plan.filters[i], slots, NoParse, filterSlots);
      if next.None? { return None; }
      filterSlots := next.value;
      i := i + 1;
    }
    assert filterSlots + {} == filterSlots;
    var groupSlots := GroupSlots(slots, plan.groupIndices);
    var aggregateSlots := AggregateSlots(slots, plan.aggregates);
    if groupSlots.None? || aggregateSlots.None? {
      return None;
    }
    var matched := (set s | s in groupSlots.value) + aggregateSlots.value;
    r := Some(FastPlan(Ascending(filterSlots, n), groupSlots.value, Ascending(aggregateSlots.value, n), Ascending(matched, n), slots));
  }

  lemma UnionWithNothing(a: Option<set<nat>>)
    ensures Union(Some({}), a) == a
  {
    if a.Some? {
      assert {} + a.value == a.value;
    }
  }

  /** `apply_fast_aggregates`: every aggregate's state, one after the other. */
  method ApplyFastAggregates(ops: FloatOps, plan: ScanPlan, fp: FastPlan, values: seq<FastNumeric>, states: seq<FastState>)
    returns (r: seq<FastState>)
    requires |states| == |plan.aggregates|
    ensures r == FastApplyAll(ops, plan, FastRowOf(fp.columnSlots, values), states)
  {
    hide FastApply;
    r := states;
    for i := 0 to |plan.aggregates|
      invariant |r| == |states|
      invariant forall j :: 0 <= j < i ==> r[j] == FastApply(ops, plan.aggregates[j], FastRowOf(fp.columnSlots, values), states[j])
      invariant forall j :: i <= j < |r| ==> r[j] == states[j]
    {
      r := r[i := FastApply(ops, plan.aggregates[i], FastRowOf(fp.columnSlots, values), r[i])];
    }
  }

  method ApplyProjectedAggregates(ops: FloatOps, plan: ScanPlan, row: Row, states: seq<State>) returns (r: seq<State>)
    requires |states| == |plan.aggregates|
    ensures r == ApplyAll(ops, plan, row, states)
  {
    hide Apply;
    r := states;
    for i := 0 to |plan.aggregates|
      invariant |r| == |states|
      invariant forall j :: 0 <= j < i ==> r[j] == Apply(ops, plan.aggregates[j], row, states[j])
      invariant forall j :: i <= j < |r| ==> r[j] == states[j]
    {
      r := r[i := Apply(ops, plan.aggregates[i], row, r[i])];
    }
  }

  /** `reduce_ungrouped_fast_numeric_scan`. */
  method ReduceUngroupedFast(ops: FloatOps, plan: ScanPlan, fp: FastPlan, records: seq<Record>) returns (r: Result<seq<FastState>>)
    ensures r == match FastInitialStates(plan)
      case None => Err
      case Some(init) => FastUngrouped(ops, plan, fp, records, NullSlots(|plan.required|), init)
  {
    hide FastDecode, FastApplyAll, FastAllMatch;
    var init := FastInitialStates(plan);
    if init.None? {
      return Err;
    }
    var projector := NewProjector(plan.schema.columns, plan.required);
    var values := new FastNumeric[|plan.required|](_ => NullSlot);
    assert values[..] == NullSlots(|plan.required|);
    var states, i := init.value, 0;
    assert records[0..] == records;
    while i < |records|
      invariant 0 <= i <= |records| && fresh(values) && |states| == |plan.aggregates|
      invariant FastUngrouped(ops, plan, fp, records, NullSlots(|plan.required|), init.value)
        == FastUngrouped(ops, plan, fp, records[i..], values[..], states)
    {
      assert records[i..][1..] == records[i + 1..];
      var ok := DecodeFastNumericSlots(plan.schema.columns, plan.required, projector, records[i].value, fp.filterSlots, values);
      if !ok { return Err; }
      if FastAllMatch(plan, fp, values[..]) {
        ok := DecodeFastNumericSlots(plan.schema.columns, plan.required, projector, records[i].value, fp.aggregateSlots, values);
        if !ok { return Err; }
        states := ApplyFastAggregates(ops, plan, fp, values[..], states);
      }
      i := i + 1;
    }
    r := Ok(states);
  }

  ghost predicate StatesComplete(plan: ScanPlan, groups: FastGroups) {
    forall k :: k in groups ==> |groups[k].1| == |plan.aggregates|
  }

  /** `reduce_grouped_fast_numeric_scan`. */
  method ReduceGroupedFast(ops: FloatOps, plan: ScanPlan, fp: FastPlan, records: seq<Record>) returns (r: Result<FastGroups>)
    ensures r == match FastInitialStates(plan)
      case None => Err
      case Some(init) => FastGrouped(ops, plan, fp, init, records, NullSlots(|plan.required|), map[])
  {
    hide FastDecode, FastApplyAll, FastAllMatch, FastGroupKey, SlotsAt;
    var init := FastInitialStates(plan);
    if init.None? {
      return Err;
    }
    var projector := NewProjector(plan.schema.columns, plan.required);
    var values := new FastNumeric[|plan.required|](_ => NullSlot);
    assert values[..] == NullSlots(|plan.required|);
    var groups: FastGroups, i := map[], 0;
    assert records[0..] == records;
    while i < |records|
      invariant 0 <= i <= |records| && fresh(values) && StatesComplete(plan, groups)
      invariant FastGrouped(ops, plan, fp, init.value, records, NullSlots(|plan.required|), map[])
        == FastGrouped(ops, plan, fp, init.value, records[i..], values[..], groups)
    {
      assert records[i..][1..] == records[i + 1..];
      var ok := DecodeFastNumericSlots(plan.schema.columns, plan.required, projector, records[i].value, fp.filterSlots, values);
      if !ok { return Err; }
      if FastAllMatch(plan, fp, values[..]) {
        ok := DecodeFastNumericSlots(plan.schema.columns, plan.required, projector, records[i].value, fp.matchedSlots, values);
        if !ok { return Err; }
        groups := UpdateFastGroup(ops, plan, fp, init.value, values[..], groups);
      }
      i := i + 1;
    }
    r := Ok(groups);
  }

  /** Find the record's group or insert it, then apply the aggregates. */
  method UpdateFastGroup(ops: FloatOps, plan: ScanPlan, fp: FastPlan, init: seq<FastState>, values: seq<FastNumeric>, groups: FastGroups)
    returns (r: FastGroups)
    requires |init| == |plan.aggregates| && StatesComplete(plan, groups)
    ensures r == FastStep(ops, plan, fp, init, values, groups) && StatesComplete(plan, r)
  {
    hide FastGroupKey, FastApplyAll;
    var k := BuildFastGroupKey(values, fp.groupSlots);
    var entry := if k in groups then groups[k] else (SlotsAt(values, fp.groupSlots), init);
    var states := ApplyFastAggregates(ops, plan, fp, values, entry.1);
    r := groups[k := (entry.0, states)];
  }

  /** `reduce_ungrouped_projected_scan`; over a key-only cursor also `reduce_ungrouped_key_only_scan`. */
  method ReduceUngroupedProjected(ops: FloatOps, plan: ScanPlan, records: seq<Record>) returns (r: Result<seq<State>>)
    ensures r == GeneralUngrouped(ops, plan, records, InitialStates(plan))
  {
    hide ProjectedRecord, AllMatch, ApplyAll;
    var states, i := InitialStates(plan), 0;
    assert records[0..] == records;
    while i < |records|
      invariant 0 <= i <= |records| && |states| == |plan.aggregates|
      invariant GeneralUngrouped(ops, plan, records, InitialStates(plan)) == GeneralUngrouped(ops, plan, records[i..], states)
    {
      assert records[i..][1..] == records[i + 1..];
      var row := ProjectedRecord(plan, records[i]);
      if row.Err? { return Err; }
      if AllMatch(plan.filters, ProjectedRow(plan, row.value)) {
        states := ApplyProjectedAggregates(ops, plan, ProjectedRow(plan, row.value), states);
      }
      i := i + 1;
    }
    r := Ok(states);
  }

  ghost predicate GeneralComplete(plan: ScanPlan, groups: GeneralGroups) {
    forall k :: k in groups ==> |groups[k].1| == |plan.aggregates|
  }

  /** The grouped loop of `execute_aggregate_scan`, and `reduce_grouped_key_only_scan`. */
  method ReduceGroupedProjected(ops: FloatOps, plan: ScanPlan, records: seq<Record>) returns (r: Result<GeneralGroups>)
    ensures r == GeneralGrouped(ops, plan, records, map[])
  {
    hide ProjectedRecord, AllMatch, GroupStep, GeneralGrouper;
    var groups: GeneralGroups, i := map[], 0;
    assert records[0..] == records;
    while i < |records|
      invariant 0 <= i <= |records| && GeneralComplete(plan, groups)
      invariant GeneralGrouped(ops, plan, records, map[]) == GeneralGrouped(ops, plan, records[i..], groups)
    {
      assert records[i..][1..] == records[i + 1..];
      var row := ProjectedRecord(plan, records[i]);
      if row.Err? { return Err; }
      if AllMatch(plan.filters, ProjectedRow(plan, row.value)) {
        groups := UpdateGeneralGroup(ops, plan, row.value, groups);
      }
      i := i + 1;
    }
    r := Ok(groups);
  }

  method UpdateGeneralGroup(ops: FloatOps, plan: ScanPlan, row: Tuple, groups: GeneralGroups) returns (r: GeneralGroups)
    requires GeneralComplete(plan, groups)
    ensures r == GroupStep(GeneralGrouper(ops, plan), row, groups) && GeneralComplete(plan, r)
  {
    hide TypedGroupKey, ApplyAll;
    var g := GroupTuple(plan, row);
    var k := BuildTypedGroupKey(g);
    var entry := if k in groups then groups[k] else (g, InitialStates(plan));
    var states := ApplyProjectedAggregates(ops, plan, ProjectedRow(plan, row), entry.1);
    r := groups[k := (entry.0, states)];
  }

  // ---------------------------------------------------------------------------------------------
  // Counting keys without reading them.

  /** `key_only_plan_needs_primary_key_values`. */
  predicate NeedsKeyValues(plan: ScanPlan) {
    plan.filters != [] || plan.groupIndices != [] ||
    exists i :: 0 <= i < |plan.aggregates| && !plan.aggregates[i].CountStar? && !plan.aggregates[i].CountColumn?
  }

  /** The shortcut of `reduce_ungrouped_key_only_scan`: every count is the number of keys. */
  function CountedStates(plan: ScanPlan, count: nat): seq<State> {
    seq(|plan.aggregates|, i requires 0 <= i < |plan.aggregates| =>
      match InitialState(plan.aggregates[i])
      case Count(n) => Count(WrapI64(n + count))
      case s => s)
  }

  /** A key that reads back as a primary key value other than NULL, in a column that the plan requires. */
  ghost predicate KeyReads(plan: ScanPlan, r: Record) {
    ProjectedRecord(plan, r).Ok? &&
    forall i :: 0 <= i < |plan.aggregates| && plan.aggregates[i].CountColumn? ==>
      !ProjectedRow(plan, ProjectedRecord(plan, r).value)(plan.aggregates[i].column).Null?
  }

  /** When every key reads back as a value, counting keys gives what reading them gives. */
  lemma {:induction false} CountShortcut(ops: FloatOps, plan: ScanPlan, records: seq<Record>, n: nat)
    requires !NeedsKeyValues(plan) && forall i :: 0 <= i < |records| ==> KeyReads(plan, records[i])
    ensures GeneralUngrouped(ops, plan, records, CountedStates(plan, n)) == Ok(CountedStates(plan, n + |records|))
    decreases |records|
  {
    hide ProjectedRecord, ProjectedRow, WrapI64;
    if records != [] {
      assert KeyReads(plan, records[0]);
      var row := ProjectedRow(plan, ProjectedRecord(plan, records[0]).value);
      forall i | 0 <= i < |plan.aggregates|
        ensures Apply(ops, plan.aggregates[i], row, CountedStates(plan, n)[i]) == CountedStates(plan, n + 1)[i]
      {
        WrapAdds(n, 1);
      }
      assert ApplyAll(ops, plan, row, CountedStates(plan, n)) == CountedStates(plan, n + 1);
      CountShortcut(ops, plan, records[1..], n + 1);
    }
  }

  // ---------------------------------------------------------------------------------------------
  // `execute_aggregate_scan`.

  predicate OnlyKey(plan: ScanPlan) {
    plan.keyOnly && forall o :: 0 <= o < |plan.required| ==> IsKeyColumn(plan.schema, plan.required[o])
  }

  function OneRow(ops: FloatOps, r: Result<seq<State>>): Result<set<Tuple>> {
    match r
    case Err => Err
    case Ok(states) => Ok({FinishAll(ops, states)})
  }

  function FastGroupedOutput(ops: FloatOps, plan: ScanPlan, groups: FastGroups): Result<set<Tuple>> {
    if exists k :: k in groups && FastGroupValues(ops, plan, groups[k].0).Err? then Err else Ok(FastRows(ops, plan, groups))
  }

  /** The scan that the general path would run. */
  function GeneralOutput(ops: FloatOps, plan: ScanPlan, records: seq<Record>): Result<set<Tuple>> {
    if plan.groupIndices == [] then OneRow(ops, GeneralUngrouped(ops, plan, records, InitialStates(plan)))
    else
      match GeneralGrouped(ops, plan, records, map[])
      case Err => Err
      case Ok(groups) => Ok(GeneralRows(ops, groups))
  }

  function FastOutput(ops: FloatOps, plan: ScanPlan, fp: FastPlan, records: seq<Record>): Result<set<Tuple>> {
    match FastInitialStates(plan)
    case None => Err
    case Some(init) =>
      if plan.groupIndices == [] then
        match FastUngrouped(ops, plan, fp, records, NullSlots(|plan.required|), init)
        case Err => Err
        case Ok(states) => Ok({FastFinishAll(ops, plan, states)})
      else
        match FastGrouped(ops, plan, fp, init, records, NullSlots(|plan.required|), map[])
        case Err => Err
        case Ok(groups) => FastGroupedOutput(ops, plan, groups)
  }

  /** The output rows as a set, the order of groups not being specified. */
  function AggregateOutput(ops: FloatOps, plan: ScanPlan, records: seq<Record>): Result<set<Tuple>> {
    if OnlyKey(plan) && plan.groupIndices == [] && !NeedsKeyValues(plan) then OneRow(ops, Ok(CountedStates(plan, |records|)))
    else if OnlyKey(plan) || FastPlanOf(plan).None? then GeneralOutput(ops, plan, records)
    else FastOutput(ops, plan, FastPlanOf(plan).value, records)
  }

  /** `execute_aggregate_scan`: count keys, or scan keys or values, on slots if they all have one. */
  method ExecuteAggregateScan(ops: FloatOps, plan: ScanPlan, records: seq<Record>) returns (r: Result<set<Tuple>>)
    ensures r == AggregateOutput(ops, plan, records)
  {
    hide FastUngrouped, FastGrouped, GeneralUngrouped, GeneralGrouped, FastPlanOf, GeneralRows, FastRows, FinishAll, FastFinishAll;
    if OnlyKey(plan) && plan.groupIndices == [] && !NeedsKeyValues(plan) {
      return Ok({FinishAll(ops, CountedStates(plan, |records|))});
    }
    if !OnlyKey(plan) {
      var fp := BuildFastPlan(plan);
      if fp.Some? {
        if plan.groupIndices == [] {
          var states := ReduceUngroupedFast(ops, plan, fp.value, records);
          return if states.Err? then Err else Ok({FastFinishAll(ops, plan, states.value)});
        }
        var groups := ReduceGroupedFast(ops, plan, fp.value, records);
        return if groups.Err? then Err else FastGroupedOutput(ops, plan, groups.value);
      }
    }
    if plan.groupIndices == [] {
      var states := ReduceUngroupedProjected(ops, plan, records);
      return OneRow(ops, states);
    }
    var groups := ReduceGroupedProjected(ops, plan, records);
    r := if groups.Err? then Err else Ok(GeneralRows(ops, groups.value));
  }

  /**
   * Choosing the fast path never changes the output of a scan over stored records, as a set of rows, exactly
   * when in every group (or over all rows) every aggregate is one that comes out the same.
   */
  lemma FastOutputAgrees(ops: FloatOps, plan: ScanPlan, fp: FastPlan, records: seq<Record>)
    requires Comparable(plan) && FastPlanOf(plan) == Some(fp)
    requires forall i :: 0 <= i < |records| ==> Stored(plan, records[i])
    ensures var rows := MatchedRows(plan, records);
      FastOutput(ops, plan, fp, records) == GeneralOutput(ops, plan, records) <==>
        if plan.groupIndices == [] then SameAll(plan, rows)
        else forall g :: g in GroupsOf(plan, rows) ==> SameAll(plan, RowsOfGroup(plan, rows, g))
  {
    hide *;
    if plan.groupIndices == [] {
      UngroupedOutputAgrees(ops, plan, fp, records);
    } else {
      GroupedOutputAgrees(ops, plan, fp, records);
    }
  }

  lemma UngroupedOutputAgrees(ops: FloatOps, plan: ScanPlan, fp: FastPlan, records: seq<Record>)
    requires Comparable(plan) && FastPlanOf(plan) == Some(fp) && plan.groupIndices == []
    requires forall i :: 0 <= i < |records| ==> Stored(plan, records[i])
    ensures FastOutput(ops, plan, fp, records) == GeneralOutput(ops, plan, records) <==> SameAll(plan, MatchedRows(plan, records))
  {
    hide Comparable, FastPlanOf, Stored, FastUngrouped, GeneralUngrouped, MatchedRows, SameAll, FinishAll, FastFinishAll;
    hide FastInitialStates, GeneralResults;
    UngroupedScansAgree(ops, plan, fp, records, NullSlots(|plan.required|));
    var fast := FastUngrouped(ops, plan, fp, records, NullSlots(|plan.required|), FastInitialStates(plan).value).value;
    var general := GeneralUngrouped(ops, plan, records, InitialStates(plan)).value;
    SingletonsEqual(FastFinishAll(ops, plan, fast), FinishAll(ops, general));
  }

  lemma SingletonsEqual(a: Tuple, b: Tuple)
    ensures {a} == {b} <==> a == b
  {
    assert {a} == {b} ==> a in {b};
  }

  lemma GroupedOutputAgrees(ops: FloatOps, plan: ScanPlan, fp: FastPlan, records: seq<Record>)
    requires Comparable(plan) && FastPlanOf(plan) == Some(fp) && plan.groupIndices != []
    requires forall i :: 0 <= i < |records| ==> Stored(plan, records[i])
    ensures var rows := MatchedRows(plan, records);
      FastOutput(ops, plan, fp, records) == GeneralOutput(ops, plan, records) <==>
        forall g :: g in GroupsOf(plan, rows) ==> SameAll(plan, RowsOfGroup(plan, rows, g))
  {
    hide Comparable, FastPlanOf, Stored, FastGrouped, GeneralGrouped, MatchedRows, SameAll, RowsOfGroup;
    hide GeneralRows, FastRows, FastInitialStates, GroupedResults, GroupsOf, FastGroupedOutput;
    GroupedScansAgree(ops, plan, fp, records, NullSlots(|plan.required|));
    var fast := FastGrouped(ops, plan, fp, FastInitialStates(plan).value, records, NullSlots(|plan.required|), map[]).value;
    GroupedOutputExists(ops, plan, fast);
  }

  lemma GroupedOutputExists(ops: FloatOps, plan: ScanPlan, groups: FastGroups)
    requires Comparable(plan)
    ensures FastGroupedOutput(ops, plan, groups) == Ok(FastRows(ops, plan, groups))
  {
    GroupValuesExist(ops, plan);
  }

  lemma GroupValuesExist(ops: FloatOps, plan: ScanPlan)
    requires Comparable(plan)
    ensures forall g: seq<FastNumeric> {:trigger FastGroupValues(ops, plan, g)} :: FastGroupValues(ops, plan, g).Ok?
  {
  }
}
