/** Aggregate scans: the projected path, the fast numeric path with its reused buffer, and their agreement. */
module AggregateScan {
  import opened Basics
  import opened Bytes
  import opened Floats
  import opened Values
  import opened TupleCodec
  import opened KeyCodec
  import opened Keys
  import opened RowFormat
  import opened RowProjection
  import opened FastNumericDecode
  import opened RowDecoder
  import opened Predicates
  import opened FastPredicates
  import opened SlotComparison
  import opened GroupKeys
  import opened Grouping
  import opened Aggregates

  datatype ScanPlan = ScanPlan(
    schema: TableSchema,
    filters: seq<KvPredicate>,
    groupIndices: seq<nat>,
    aggregates: seq<AggregateOp>,
    required: seq<nat>,
    keyOnly: bool)

  datatype Record = Record(key: bytes, value: bytes)

  // ---------------------------------------------------------------------------------------------
  // The projected path.

  /** `required_slot`. */
  function RequiredSlot(required: seq<nat>, c: nat): (r: Option<nat>)
    ensures r.Some? ==> r.value < |required| && required[r.value] == c
    ensures r.None? ==> c !in required
  {
    if required == [] then None
    else if required[0] == c then Some(0)
    else
      match RequiredSlot(required[1..], c)
      case None => None
      case Some(s) => Some(s + 1)
  }

  /** `projected_value`; a column that is not required reads as NULL. */
  function ProjectedRow(plan: ScanPlan, values: Tuple): Row {
    (c: nat) =>
      match RequiredSlot(plan.required, c)
      case None => Null
      case Some(s) => if s < |values| then values[s] else Null
  }

  predicate IsKeyColumn(schema: TableSchema, c: nat) {
    c < |schema.columns| && schema.columns[c].name == schema.primaryKey
  }

  function KeyValue(schema: TableSchema, key: bytes): Result<ColumnValue> {
    DecodePkFromRowKey(key, schema.tableId, schema.tableEpoch, PkDataType(schema.columns))
  }

  /** Required primary key columns take their value from the key, the others keep the record's. */
  function WithKeyValue(plan: ScanPlan, values: Tuple, v: ColumnValue): (r: Tuple)
    requires |values| == |plan.required|
    ensures |r| == |values|
  {
    seq(|values|, o requires 0 <= o < |values| => if IsKeyColumn(plan.schema, plan.required[o]) then v else values[o])
  }

  /** `projected_values_for_aggregate_record`. */
  function ProjectedRecord(plan: ScanPlan, r: Record): Result<Tuple> {
    if forall o :: 0 <= o < |plan.required| ==> IsKeyColumn(plan.schema, plan.required[o]) then
      if plan.required == [] then Ok([])
      else
        match KeyValue(plan.schema, r.key)
        case Err => Err
        case Ok(v) => Ok(seq(|plan.required|, _ => v))
    else
      match Project(plan.schema.columns, plan.required, r.value)
      case Err => Err
      case Ok(values) =>
        if exists o :: 0 <= o < |plan.required| && IsKeyColumn(plan.schema, plan.required[o]) then
          match KeyValue(plan.schema, r.key)
          case Err => Err
          case Ok(v) => Ok(WithKeyValue(plan, values, v))
        else Ok(values)
  }

  function ApplyAll(ops: FloatOps, plan: ScanPlan, row: Row, states: seq<State>): (r: seq<State>)
    ensures |r| == |states|
  {
    seq(|states|, i requires 0 <= i < |states| => if i < |plan.aggregates| then Apply(ops, plan.aggregates[i], row, states[i]) else states[i])
  }

  function InitialStates(plan: ScanPlan): (r: seq<State>)
    ensures |r| == |plan.aggregates|
  {
    seq(|plan.aggregates|, i requires 0 <= i < |plan.aggregates| => InitialState(plan.aggregates[i]))
  }

  function FinishAll(ops: FloatOps, states: seq<State>): (r: Tuple)
    ensures |r| == |states|
  {
    seq(|states|, i requires 0 <= i < |states| => Finish(ops, states[i]))
  }

  /** `projected_group_values`. */
  function GroupTuple(plan: ScanPlan, values: Tuple): (r: Tuple)
    ensures |r| == |plan.groupIndices|
  {
    seq(|plan.groupIndices|, i requires 0 <= i < |plan.groupIndices| => ProjectedRow(plan, values)(plan.groupIndices[i]))
  }

  function TupleOf(plan: ScanPlan): Tuple -> Tuple {
    row => GroupTuple(plan, row)
  }

  function GeneralGrouper(ops: FloatOps, plan: ScanPlan): Grouper<bytes, Tuple, seq<State>> {
    Grouper(TupleOf(plan), g => TypedGroupKey(g), g => g, InitialStates(plan),
      (states, row) => ApplyAll(ops, plan, ProjectedRow(plan, row), states))
  }

  type GeneralGroups = map<bytes, (Tuple, seq<State>)>

  /** The grouped scan of the projected path, record by record. */
  function GeneralGrouped(ops: FloatOps, plan: ScanPlan, records: seq<Record>, groups: GeneralGroups): Result<GeneralGroups> {
    if records == [] then Ok(groups)
    else
      match ProjectedRecord(plan, records[0])
      case Err => Err
      case Ok(row) =>
        GeneralGrouped(ops, plan, records[1..],
          if AllMatch(plan.filters, ProjectedRow(plan, row)) then GroupStep(GeneralGrouper(ops, plan), row, groups) else groups)
  }

  /** The ungrouped scan of the projected path. */
  function GeneralUngrouped(ops: FloatOps, plan: ScanPlan, records: seq<Record>, states: seq<State>): Result<seq<State>> {
    if records == [] then Ok(states)
    else
      match ProjectedRecord(plan, records[0])
      case Err => Err
      case Ok(row) =>
        GeneralUngrouped(ops, plan, records[1..],
          if AllMatch(plan.filters, ProjectedRow(plan, row)) then ApplyAll(ops, plan, ProjectedRow(plan, row), states) else states)
  }

  /** Output rows of a grouped scan, the order of groups not being specified. */
  function GeneralRows(ops: FloatOps, groups: GeneralGroups): set<Tuple> {
    set k | k in groups :: groups[k].0 + FinishAll(ops, groups[k].1)
  }

  // ---------------------------------------------------------------------------------------------
  // The fast path: its plan.

  datatype FastPlan = FastPlan(
    filterSlots: seq<nat>,
    groupSlots: seq<nat>,
    aggregateSlots: seq<nat>,
    matchedSlots: seq<nat>,
    columnSlots: seq<Option<nat>>)

  const NoParse: ParseF64 := _ => None

  function GroupSlots(slots: seq<Option<nat>>, columns: seq<nat>): (r: Option<seq<nat>>)
    ensures r.Some? ==> |r.value| == |columns| && forall i :: 0 <= i < |columns| ==> SlotOf(slots, columns[i]) == Some(r.value[i])
  {
    if columns == [] then Some([])
    else
      var rest := GroupSlots(slots, columns[1..]);
      if SlotOf(slots, columns[0]).None? || rest.None? then None else Some([SlotOf(slots, columns[0]).value] + rest.value)
  }

  function AggregateSlots(slots: seq<Option<nat>>, aggregates: seq<AggregateOp>): (r: Option<set<nat>>)
    ensures r.Some? ==> forall i :: 0 <= i < |aggregates| && !aggregates[i].CountStar? ==>
      SlotOf(slots, aggregates[i].column).Some? && SlotOf(slots, aggregates[i].column).value in r.value
  {
    if aggregates == [] then Some({})
    else Union(if aggregates[0].CountStar? then Some({}) else Single(SlotOf(slots, aggregates[0].column)), AggregateSlots(slots, aggregates[1..]))
  }

  predicate AllFastNumeric(plan: ScanPlan) {
    forall o :: 0 <= o < |plan.required| ==>
      plan.required[o] < |plan.schema.columns| && FastNumericType(plan.schema.columns[plan.required[o]].dataType)
  }

  /** `build_fast_numeric_aggregate_plan`. */
  function FastPlanOf(plan: ScanPlan): Option<FastPlan> {
    if plan.keyOnly || !AllFastNumeric(plan) then None
    else
      var n := |plan.required|;
      var slots := ColumnSlots(|plan.schema.columns|, plan.required, n);
      match (FilterSlotsAll(plan.filters, slots, NoParse), GroupSlots(slots, plan.groupIndices), AggregateSlots(slots, plan.aggregates))
      case (Some(f), Some(g), Some(a)) =>
        Some(FastPlan(Ascending(f, n), g, Ascending(a, n), Ascending((set s | s in g) + a, n), slots))
      case _ => None
  }

  // ---------------------------------------------------------------------------------------------
  // The fast path: one buffer for all records, decoded in two phases.

  function FastRowOf(slots: seq<Option<nat>>, values: seq<FastNumeric>): FastRow {
    (c: nat) => InSlot(slots, values, c)
  }

  predicate FastAllMatch(plan: ScanPlan, fp: FastPlan, values: seq<FastNumeric>) {
    forall i :: 0 <= i < |plan.filters| ==> FastMatches(plan.filters[i], fp.columnSlots, values, NoParse)
  }

  function FastApplyAll(ops: FloatOps, plan: ScanPlan, row: FastRow, states: seq<FastState>): (r: seq<FastState>)
    ensures |r| == |states|
  {
    seq(|states|, i requires 0 <= i < |states| => if i < |plan.aggregates| then FastApply(ops, plan.aggregates[i], row, states[i]) else states[i])
  }

  /** `initial_fast_aggregate_states`. */
  function FastInitialStates(plan: ScanPlan): (r: Option<seq<FastState>>)
    ensures r.Some? ==> |r.value| == |plan.aggregates|
    ensures r.Some? ==>
      forall i :: 0 <= i < |plan.aggregates| ==> FastInitialState(plan.schema.columns, plan.aggregates[i]) == Some(r.value[i])
    ensures r.None? ==> exists i :: 0 <= i < |plan.aggregates| && FastInitialState(plan.schema.columns, plan.aggregates[i]).None?
  {
    if forall i :: 0 <= i < |plan.aggregates| ==> FastInitialState(plan.schema.columns, plan.aggregates[i]).Some? then
      Some(seq(|plan.aggregates|, i requires 0 <= i < |plan.aggregates| => FastInitialState(plan.schema.columns, plan.aggregates[i]).value))
    else None
  }

  function FastFinishAll(ops: FloatOps, plan: ScanPlan, states: seq<FastState>): (r: Tuple)
    ensures |r| == |states|
  {
    seq(|states|, i requires 0 <= i < |states| =>
      if i < |plan.aggregates| then FastFinish(ops, plan.schema.columns, plan.aggregates[i], states[i]) else Null)
  }

  type FastGroups = map<FastKey, (seq<FastNumeric>, seq<FastState>)>

  function FastStep(ops: FloatOps, plan: ScanPlan, fp: FastPlan, init: seq<FastState>, values: seq<FastNumeric>, groups: FastGroups): FastGroups {
    var g := SlotsAt(values, fp.groupSlots);
    var k := FastGroupKey(g);
    var row := FastRowOf(fp.columnSlots, values);
    if k in groups then groups[k := (groups[k].0, FastApplyAll(ops, plan, row, groups[k].1))]
    else groups[k := (g, FastApplyAll(ops, plan, row, init))]
  }

  /** The grouped fast scan, record by record, threading the buffer. */
  function FastGrouped(ops: FloatOps, plan: ScanPlan, fp: FastPlan, init: seq<FastState>, records: seq<Record>,
      buffer: seq<FastNumeric>, groups: FastGroups): Result<FastGroups>
    decreases |records|
  {
    if records == [] then Ok(groups)
    else
      match FastDecode(plan.schema.columns, plan.required, records[0].value, fp.filterSlots, buffer)
      case Err => Err
      case Ok(b1) =>
        if !FastAllMatch(plan, fp, b1) then FastGrouped(ops, plan, fp, init, records[1..], b1, groups)
        else
          match FastDecode(plan.schema.columns, plan.required, records[0].value, fp.matchedSlots, b1)
          case Err => Err
          case Ok(b2) => FastGrouped(ops, plan, fp, init, records[1..], b2, FastStep(ops, plan, fp, init, b2, groups))
  }

  /** The ungrouped fast scan; its second phase decodes only the aggregates' slots. */
  function FastUngrouped(ops: FloatOps, plan: ScanPlan, fp: FastPlan, records: seq<Record>, buffer: seq<FastNumeric>, states: seq<FastState>)
    : Result<seq<FastState>>
    decreases |records|
  {
    if records == [] then Ok(states)
    else
      match FastDecode(plan.schema.columns, plan.required, records[0].value, fp.filterSlots, buffer)
      case Err => Err
      case Ok(b1) =>
        if !FastAllMatch(plan, fp, b1) then FastUngrouped(ops, plan, fp, records[1..], b1, states)
        else
          match FastDecode(plan.schema.columns, plan.required, records[0].value, fp.aggregateSlots, b1)
          case Err => Err
          case Ok(b2) =>
            FastUngrouped(ops, plan, fp, records[1..], b2, FastApplyAll(ops, plan, FastRowOf(fp.columnSlots, b2), states))
  }

  /** `finish_fast_grouped_aggregate_row`; a group column out of range fails the scan. */
  function FastGroupValues(ops: FloatOps, plan: ScanPlan, g: seq<FastNumeric>): Result<Tuple> {
    if forall i :: 0 <= i < |plan.groupIndices| ==> plan.groupIndices[i] < |plan.schema.columns| then
      Ok(seq(if |g| < |plan.groupIndices| then |g| else |plan.groupIndices|,
        i requires 0 <= i < |g| && i < |plan.groupIndices| => FromSlot(ops, plan.schema.columns[plan.groupIndices[i]].dataType, g[i])))
    else Err
  }

  function FastRows(ops: FloatOps, plan: ScanPlan, groups: FastGroups): set<Tuple> {
    set k | k in groups && FastGroupValues(ops, plan, groups[k].0).Ok? ::
      FastGroupValues(ops, plan, groups[k].0).value + FastFinishAll(ops, plan, groups[k].1)
  }
}
