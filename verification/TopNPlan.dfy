/** Predicates compiled to slots, and the slots a top-N scan decodes. */
module TopNPlan {
  import opened Basics
  import opened Bytes
  import opened Values
  import opened TupleCodec
  import opened FastNumericDecode
  import opened Predicates
  import opened FastPredicates
  import opened SlotComparison
  import opened GroupKeys

  /** `FastPredicate`. */
  datatype SlotPredicate =
    | Always
    | SlotCompare(slot: nat, op: KvCompareOp, value: FastNumeric)
    | SlotAnd(parts: seq<SlotPredicate>)
    | SlotOr(parts: seq<SlotPredicate>)
    | SlotNot(inner: SlotPredicate)
    | SlotIsNull(slot: nat)
    | SlotIsNotNull(slot: nat)
    | SlotBetween(slot: nat, low: FastNumeric, high: FastNumeric, negated: bool)

  /** `fast_predicate_matches`. */
  predicate SlotMatches(q: SlotPredicate, values: seq<FastNumeric>) {
    match q
    case Always => true
    case SlotCompare(s, op, v) => FastCompare(SlotAt(values, s), op, v)
    case SlotAnd(parts) => forall i :: 0 <= i < |parts| ==> SlotMatches(parts[i], values)
    case SlotOr(parts) => exists i :: 0 <= i < |parts| && SlotMatches(parts[i], values)
    case SlotNot(inner) => !SlotMatches(inner, values)
    case SlotIsNull(s) => SlotAt(values, s).NullSlot?
    case SlotIsNotNull(s) => !SlotAt(values, s).NullSlot?
    case SlotBetween(s, low, high, negated) =>
      var inside := FastCompare(SlotAt(values, s), GtEq, low) && FastCompare(SlotAt(values, s), LtEq, high);
      if negated then !inside else inside
  }

  /** `collect_fast_predicate_slots`. */
  function SlotsIn(q: SlotPredicate): set<nat>
    decreases q, 0
  {
    match q
    case Always => {}
    case SlotCompare(s, _, _) => {s}
    case SlotAnd(parts) => SlotsInAll(parts)
    case SlotOr(parts) => SlotsInAll(parts)
    case SlotNot(inner) => SlotsIn(inner)
    case SlotIsNull(s) => {s}
    case SlotIsNotNull(s) => {s}
    case SlotBetween(s, _, _, _) => {s}
  }

  function SlotsInAll(qs: seq<SlotPredicate>): set<nat>
    decreases qs, 1
  {
    if qs == [] then {} else SlotsIn(qs[0]) + SlotsInAll(qs[1..])
  }

  /** `compile_fast_predicate`. */
  function Compile(p: KvPredicate, slots: seq<Option<nat>>, parse: ParseF64): Option<SlotPredicate>
    decreases p, 0
  {
    match p
    case ColumnCompare(c, op, v) =>
      if SlotOf(slots, c).None? || LiteralView(v, parse).None? then None
      else Some(SlotCompare(SlotOf(slots, c).value, op, LiteralView(v, parse).value))
    case And(parts) =>
      (match CompileAll(parts, slots, parse)
       case None => None
       case Some(qs) => Some(SlotAnd(qs)))
    case Or(parts) =>
      (match CompileAll(parts, slots, parse)
       case None => None
       case Some(qs) => Some(SlotOr(qs)))
    case Not(inner) =>
      (match Compile(inner, slots, parse)
       case None => None
       case Some(q) => Some(SlotNot(q)))
    case IsNull(c) => if SlotOf(slots, c).None? then None else Some(SlotIsNull(SlotOf(slots, c).value))
    case IsNotNull(c) => if SlotOf(slots, c).None? then None else Some(SlotIsNotNull(SlotOf(slots, c).value))
    case Between(c, low, high, negated) =>
      if SlotOf(slots, c).None? || LiteralView(low, parse).None? || LiteralView(high, parse).None? then None
      else Some(SlotBetween(SlotOf(slots, c).value, LiteralView(low, parse).value, LiteralView(high, parse).value, negated))
  }

  function CompileAll(ps: seq<KvPredicate>, slots: seq<Option<nat>>, parse: ParseF64): (r: Option<seq<SlotPredicate>>)
    ensures r.Some? ==> |r.value| == |ps| && forall i :: 0 <= i < |ps| ==> Compile(ps[i], slots, parse) == Some(r.value[i])
    decreases ps, 1
  {
    if ps == [] then Some([])
    else
      var first, rest := Compile(ps[0], slots, parse), CompileAll(ps[1..], slots, parse);
      if first.None? || rest.None? then None else Some([first.value] + rest.value)
  }

  /** Compilation keeps the meaning, on any values whatever. */
  lemma {:induction false} CompiledMatches(p: KvPredicate, slots: seq<Option<nat>>, parse: ParseF64, values: seq<FastNumeric>)
    requires Compile(p, slots, parse).Some?
    ensures SlotMatches(Compile(p, slots, parse).value, values) <==> FastMatches(p, slots, values, parse)
    decreases p
  {
    hide FastCompare;
    match p {
      case And(parts) =>
        forall i | 0 <= i < |parts| { CompiledMatches(parts[i], slots, parse, values); }
      case Or(parts) =>
        forall i | 0 <= i < |parts| { CompiledMatches(parts[i], slots, parse, values); }
      case Not(inner) => CompiledMatches(inner, slots, parse, values);
      case _ =>
    }
  }

  /** It succeeds exactly when the slots can be collected, and it reads exactly those slots. */
  lemma {:induction false} CompiledSlots(p: KvPredicate, slots: seq<Option<nat>>, parse: ParseF64)
    ensures FilterSlots(p, slots, parse) == match Compile(p, slots, parse) case None => None case Some(q) => Some(SlotsIn(q))
    decreases p, 0
  {
    hide LiteralView;
    match p {
      case And(parts) => CompiledSlotsAll(parts, slots, parse);
      case Or(parts) => CompiledSlotsAll(parts, slots, parse);
      case Not(inner) => CompiledSlots(inner, slots, parse);
      case _ =>
    }
  }

  lemma {:induction false} CompiledSlotsAll(ps: seq<KvPredicate>, slots: seq<Option<nat>>, parse: ParseF64)
    ensures FilterSlotsAll(ps, slots, parse) == match CompileAll(ps, slots, parse) case None => None case Some(qs) => Some(SlotsInAll(qs))
    decreases ps, 1
  {
    hide Compile, FilterSlots, SlotsIn;
    if ps != [] {
      CompiledSlots(ps[0], slots, parse);
      CompiledSlotsAll(ps[1..], slots, parse);
      var first, rest := Compile(ps[0], slots, parse), CompileAll(ps[1..], slots, parse);
      if first.Some? && rest.Some? {
        assert ([first.value] + rest.value)[1..] == rest.value;
      }
    }
  }

  // ---------------------------------------------------------------------------------------------
  // The scan plan.

  datatype TopNPlan = TopNPlan(
    schema: TableSchema,
    filters: seq<KvPredicate>,
    scanIndices: seq<nat>,
    outputIndices: seq<nat>,
    orderIdx: nat,
    pkIdx: Option<nat>,
    descending: bool,
    nullsFirst: bool,
    skip: nat,
    fetch: nat)

  datatype FastTopN = FastTopN(
    required: seq<nat>,
    filter: SlotPredicate,
    filterSlots: seq<nat>,
    candidateSlots: seq<nat>,
    orderSlot: nat,
    pkSlot: Option<nat>)

  /** `column_is_fast_numeric`. */
  predicate FastColumn(schema: TableSchema, c: nat) {
    c < |schema.columns| && FastNumericType(schema.columns[c].dataType)
  }

  /** `collect_fast_predicate_columns`. */
  function FastColumns(p: KvPredicate, schema: TableSchema, parse: ParseF64): Option<set<nat>>
    decreases p, 0
  {
    match p
    case ColumnCompare(c, _, v) => if !FastColumn(schema, c) || LiteralView(v, parse).None? then None else Some({c})
    case And(parts) => FastColumnsAll(parts, schema, parse)
    case Or(parts) => FastColumnsAll(parts, schema, parse)
    case Not(inner) => FastColumns(inner, schema, parse)
    case IsNull(c) => if !FastColumn(schema, c) then None else Some({c})
    case IsNotNull(c) => if !FastColumn(schema, c) then None else Some({c})
    case Between(c, low, high, _) =>
      if !FastColumn(schema, c) || LiteralView(low, parse).None? || LiteralView(high, parse).None? then None else Some({c})
  }

  function FastColumnsAll(ps: seq<KvPredicate>, schema: TableSchema, parse: ParseF64): Option<set<nat>>
    decreases ps, 1
  {
    if ps == [] then Some({}) else Union(FastColumns(ps[0], schema, parse), FastColumnsAll(ps[1..], schema, parse))
  }

  function WholeFilter(qs: seq<SlotPredicate>): SlotPredicate {
    if qs == [] then Always else SlotAnd(qs)
  }

  function Required(plan: TopNPlan, filtered: set<nat>): seq<nat> {
    Ascending(filtered + {plan.orderIdx} + (if plan.pkIdx.Some? then {plan.pkIdx.value} else {}), |plan.schema.columns|)
  }

  /** `compile_fast_topn_scan_plan`. */
  function CompileTopN(plan: TopNPlan, parse: ParseF64): Option<FastTopN> {
    if !FastColumn(plan.schema, plan.orderIdx) || (plan.pkIdx.Some? && !FastColumn(plan.schema, plan.pkIdx.value)) then None
    else
      match FastColumnsAll(plan.filters, plan.schema, parse)
      case None => None
      case Some(filtered) =>
        var required := Required(plan, filtered);
        var slots := ColumnSlots(|plan.schema.columns|, required, |required|);
        match CompileAll(plan.filters, slots, parse)
        case None => None
        case Some(qs) =>
          if SlotOf(slots, plan.orderIdx).None? then None
          else
            var orderSlot := SlotOf(slots, plan.orderIdx).value;
            var pkSlot := if plan.pkIdx.Some? then SlotOf(slots, plan.pkIdx.value) else None;
            var candidate := {orderSlot} + if pkSlot.Some? then {pkSlot.value} else {};
            Some(FastTopN(required, WholeFilter(qs), Ascending(SlotsIn(WholeFilter(qs)), |required|),
              Ascending(candidate, |required|), orderSlot, pkSlot))
  }

  function TopNSlots(plan: TopNPlan, fp: FastTopN): (r: seq<Option<nat>>)
    ensures |r| == |plan.schema.columns|
  {
    ColumnSlots(|plan.schema.columns|, fp.required, |fp.required|)
  }

  lemma {:induction false} FastColumnsInRange(ps: seq<KvPredicate>, schema: TableSchema, parse: ParseF64)
    requires FastColumnsAll(ps, schema, parse).Some?
    ensures forall c :: c in FastColumnsAll(ps, schema, parse).value ==> FastColumn(schema, c)
    decreases ps, 1
  {
    hide LiteralView;
    if ps != [] {
      OneFastColumnsInRange(ps[0], schema, parse);
      FastColumnsInRange(ps[1..], schema, parse);
    }
  }

  lemma {:induction false} OneFastColumnsInRange(p: KvPredicate, schema: TableSchema, parse: ParseF64)
    requires FastColumns(p, schema, parse).Some?
    ensures forall c :: c in FastColumns(p, schema, parse).value ==> FastColumn(schema, c)
    decreases p, 0
  {
    hide LiteralView;
    match p {
      case And(parts) => FastColumnsInRange(parts, schema, parse);
      case Or(parts) => FastColumnsInRange(parts, schema, parse);
      case Not(inner) => OneFastColumnsInRange(inner, schema, parse);
      case _ =>
    }
  }

  /** The required columns are distinct numeric columns, the order column and the key among them. */
  lemma RequiredColumns(plan: TopNPlan, parse: ParseF64)
    requires CompileTopN(plan, parse).Some?
    ensures var required := CompileTopN(plan, parse).value.required;
      && (forall o {:trigger required[o]} :: 0 <= o < |required| ==> FastColumn(plan.schema, required[o]))
      && (forall i, j :: 0 <= i < j < |required| ==> required[i] != required[j])
      && plan.orderIdx in required && (plan.pkIdx.Some? ==> plan.pkIdx.value in required)
  {
    hide CompileAll, FastColumnsAll, SlotsIn, ColumnSlots;
    FastColumnsInRange(plan.filters, plan.schema, parse);
    var required := CompileTopN(plan, parse).value.required;
    forall o | 0 <= o < |required| ensures FastColumn(plan.schema, required[o]) {
      assert required[o] in required;
    }
  }

  /** The second phase decodes the slots of the order column and of the key. */
  lemma CandidateSlotsCovered(plan: TopNPlan, parse: ParseF64)
    requires CompileTopN(plan, parse).Some?
    ensures var fp := CompileTopN(plan, parse).value;
      var slots := TopNSlots(plan, fp);
      && SlotOf(slots, plan.orderIdx) == Some(fp.orderSlot) && fp.orderSlot in fp.candidateSlots && fp.orderSlot < |fp.required|
      && (plan.pkIdx.None? <==> fp.pkSlot.None?)
      && (plan.pkIdx.Some? ==> SlotOf(slots, plan.pkIdx.value) == fp.pkSlot)
      && (plan.pkIdx.Some? ==> fp.pkSlot.value in fp.candidateSlots && fp.pkSlot.value < |fp.required|)
      && (forall i :: 0 <= i < |fp.candidateSlots| ==> fp.candidateSlots[i] < |fp.required|)
  {
    RequiredColumns(plan, parse);
    hide CompileAll, FastColumnsAll, SlotsIn, Required;
    var fp := CompileTopN(plan, parse).value;
    assert fp.required[..|fp.required|] == fp.required;
    if plan.pkIdx.Some? {
      var i :| 0 <= i < |fp.required| && fp.required[i] == plan.pkIdx.value;
      assert FastColumn(plan.schema, fp.required[i]);
    }
  }

  /** The first phase decodes every slot that the compiled filter reads. */
  lemma FilterSlotsCovered(plan: TopNPlan, parse: ParseF64)
    requires CompileTopN(plan, parse).Some?
    ensures var fp := CompileTopN(plan, parse).value;
      && FilterSlotsAll(plan.filters, TopNSlots(plan, fp), parse) == Some(SlotsIn(fp.filter))
      && (forall s :: s in SlotsIn(fp.filter) ==> s in fp.filterSlots && s < |fp.required|)
      && (forall i :: 0 <= i < |fp.filterSlots| ==> fp.filterSlots[i] < |fp.required|)
  {
    var fp := CompileTopN(plan, parse).value;
    var slots := TopNSlots(plan, fp);
    CompiledSlotsAll(plan.filters, slots, parse);
    WholeFilterSlots(CompileAll(plan.filters, slots, parse).value);
    hide CompileAll, FastColumnsAll, SlotsIn, Required, FilterSlotsAll;
    FilterSlotsBelow(plan.filters, slots, parse, |fp.required|);
  }

  lemma WholeFilterSlots(qs: seq<SlotPredicate>)
    ensures SlotsIn(WholeFilter(qs)) == SlotsInAll(qs)
  {
  }

  lemma {:induction false} FilterSlotsBelow(ps: seq<KvPredicate>, slots: seq<Option<nat>>, parse: ParseF64, n: nat)
    requires FilterSlotsAll(ps, slots, parse).Some? && forall c :: 0 <= c < |slots| && slots[c].Some? ==> slots[c].value < n
    ensures forall s :: s in FilterSlotsAll(ps, slots, parse).value ==> s < n
    decreases ps, 1
  {
    hide LiteralView;
    if ps != [] {
      OneFilterSlotsBelow(ps[0], slots, parse, n);
      FilterSlotsBelow(ps[1..], slots, parse, n);
    }
  }

  lemma {:induction false} OneFilterSlotsBelow(p: KvPredicate, slots: seq<Option<nat>>, parse: ParseF64, n: nat)
    requires FilterSlots(p, slots, parse).Some? && forall c :: 0 <= c < |slots| && slots[c].Some? ==> slots[c].value < n
    ensures forall s :: s in FilterSlots(p, slots, parse).value ==> s < n
    decreases p, 0
  {
    hide LiteralView;
    match p {
      case And(parts) => FilterSlotsBelow(parts, slots, parse, n);
      case Or(parts) => FilterSlotsBelow(parts, slots, parse, n);
      case Not(inner) => OneFilterSlotsBelow(inner, slots, parse, n);
      case _ =>
    }
  }

  /** The compiled filter decides as the list of filters does on slots. */
  lemma WholeFilterMatches(plan: TopNPlan, parse: ParseF64, values: seq<FastNumeric>)
    requires CompileTopN(plan, parse).Some?
    ensures var fp := CompileTopN(plan, parse).value;
      SlotMatches(fp.filter, values) <==>
        forall i :: 0 <= i < |plan.filters| ==> FastMatches(plan.filters[i], TopNSlots(plan, fp), values, parse)
  {
    hide Compile, FastMatches;
    var fp := CompileTopN(plan, parse).value;
    var slots := TopNSlots(plan, fp);
    var qs := CompileAll(plan.filters, slots, parse).value;
    forall i | 0 <= i < |qs| ensures SlotMatches(qs[i], values) <==> FastMatches(plan.filters[i], slots, values, parse) {
      CompiledMatches(plan.filters[i], slots, parse, values);
    }
    hide SlotMatches;
    WholeMatches(qs, values);
  }

  lemma WholeMatches(qs: seq<SlotPredicate>, values: seq<FastNumeric>)
    ensures SlotMatches(WholeFilter(qs), values) <==> forall i :: 0 <= i < |qs| ==> SlotMatches(qs[i], values)
  {
  }
}
