/** Filters evaluated on numeric slots instead of column values. */
module FastPredicates {
  import opened Basics
  import opened Bytes
  import opened Values
  import opened TupleCodec
  import opened FastNumericDecode
  import opened Predicates
  import opened SlotComparison

  // ---------------------------------------------------------------------------------------------
  // Predicates over slots.

  /** The slot of a column, if the plan reads it. */
  function SlotOf(slots: seq<Option<nat>>, c: nat): Option<nat> {
    if c < |slots| then slots[c] else None
  }

  /** The value in a column's slot; a column without one reads as NULL. */
  function InSlot(slots: seq<Option<nat>>, values: seq<FastNumeric>, c: nat): FastNumeric {
    match SlotOf(slots, c)
    case None => NullSlot
    case Some(s) => if s < |values| then values[s] else NullSlot
  }

  predicate LiteralCompare(a: FastNumeric, op: KvCompareOp, v: ColumnValue, parse: ParseF64) {
    match LiteralView(v, parse)
    case None => false
    case Some(b) => FastCompare(a, op, b)
  }

  /** `fast_aggregate_predicate_matches`. */
  predicate FastMatches(p: KvPredicate, slots: seq<Option<nat>>, values: seq<FastNumeric>, parse: ParseF64)
    decreases p
  {
    match p
    case ColumnCompare(c, op, v) => LiteralCompare(InSlot(slots, values, c), op, v, parse)
    case And(parts) => forall i :: 0 <= i < |parts| ==> FastMatches(parts[i], slots, values, parse)
    case Or(parts) => exists i :: 0 <= i < |parts| && FastMatches(parts[i], slots, values, parse)
    case Not(inner) => !FastMatches(inner, slots, values, parse)
    case IsNull(c) => InSlot(slots, values, c).NullSlot?
    case IsNotNull(c) => !InSlot(slots, values, c).NullSlot?
    case Between(c, low, high, negated) =>
      var x := InSlot(slots, values, c);
      var inside := LiteralView(low, parse).Some? && LiteralView(high, parse).Some?
        && LiteralCompare(x, GtEq, low, parse) && LiteralCompare(x, LtEq, high, parse);
      if negated then !inside else inside
  }

  function Union(a: Option<set<nat>>, b: Option<set<nat>>): Option<set<nat>> {
    if a.None? || b.None? then None else Some(a.value + b.value)
  }

  function Single(s: Option<nat>): Option<set<nat>> {
    if s.None? then None else Some({s.value})
  }

  /** `collect_fast_aggregate_filter_slots`: None when a literal or a column cannot be read as a slot. */
  function FilterSlots(p: KvPredicate, slots: seq<Option<nat>>, parse: ParseF64): Option<set<nat>>
    decreases p, 0
  {
    match p
    case ColumnCompare(c, _, v) => if LiteralView(v, parse).None? then None else Single(SlotOf(slots, c))
    case And(parts) => FilterSlotsAll(parts, slots, parse)
    case Or(parts) => FilterSlotsAll(parts, slots, parse)
    case Not(inner) => FilterSlots(inner, slots, parse)
    case IsNull(c) => Single(SlotOf(slots, c))
    case IsNotNull(c) => Single(SlotOf(slots, c))
    case Between(c, low, high, _) =>
      if LiteralView(low, parse).None? || LiteralView(high, parse).None? then None else Single(SlotOf(slots, c))
  }

  function FilterSlotsAll(ps: seq<KvPredicate>, slots: seq<Option<nat>>, parse: ParseF64): Option<set<nat>>
    decreases ps, 1
  {
    if ps == [] then Some({})
    else Union(FilterSlots(ps[0], slots, parse), FilterSlotsAll(ps[1..], slots, parse))
  }

  lemma {:induction false} FilterSlotsPart(ps: seq<KvPredicate>, slots: seq<Option<nat>>, parse: ParseF64, i: nat)
    requires FilterSlotsAll(ps, slots, parse).Some? && i < |ps|
    ensures FilterSlots(ps[i], slots, parse).Some?
    ensures FilterSlots(ps[i], slots, parse).value <= FilterSlotsAll(ps, slots, parse).value
    decreases |ps|
  {
    hide FilterSlots;
    if i > 0 {
      FilterSlotsPart(ps[1..], slots, parse, i - 1);
    }
  }

  /** The slots in `need` hold the views of the row's columns, which fit their types. */
  predicate SlotsHold(columns: seq<ColumnSchema>, slots: seq<Option<nat>>, values: seq<FastNumeric>, need: set<nat>, row: Row) {
    && |slots| == |columns|
    && forall c {:trigger row(c)} :: 0 <= c < |columns| && slots[c].Some? && slots[c].value in need ==>
      && slots[c].value < |values| && FastNumericType(columns[c].dataType) && Fits(columns[c].dataType, row(c))
      && NumericView(row(c)) == Some(values[slots[c].value])
  }

  /** The column, if it is a fast one, is compared alike with the literal by slots and by values. */
  predicate AgreeingColumn(columns: seq<ColumnSchema>, c: nat, op: KvCompareOp, v: ColumnValue, parse: ParseF64) {
    c < |columns| && FastNumericType(columns[c].dataType) ==> AgreeingLiteral(columns[c].dataType, op, v, parse)
  }

  /** Every literal of the filter is one for which slots and values compare alike. */
  predicate AgreeingFilter(p: KvPredicate, columns: seq<ColumnSchema>, parse: ParseF64) {
    match p
    case ColumnCompare(c, op, v) => AgreeingColumn(columns, c, op, v, parse)
    case And(parts) => forall i :: 0 <= i < |parts| ==> AgreeingFilter(parts[i], columns, parse)
    case Or(parts) => forall i :: 0 <= i < |parts| ==> AgreeingFilter(parts[i], columns, parse)
    case Not(inner) => AgreeingFilter(inner, columns, parse)
    case Between(c, low, high, _) =>
      AgreeingColumn(columns, c, GtEq, low, parse) && AgreeingColumn(columns, c, LtEq, high, parse)
    case _ => true
  }

  /** A filter on slots decides every row as the filter on values does, reading only the slots it asked for. */
  lemma {:induction false} FilterAgrees(p: KvPredicate, columns: seq<ColumnSchema>, slots: seq<Option<nat>>,
      values: seq<FastNumeric>, parse: ParseF64, need: set<nat>, row: Row)
    requires FilterSlots(p, slots, parse).Some? && FilterSlots(p, slots, parse).value <= need
    requires SlotsHold(columns, slots, values, need, row) && AgreeingFilter(p, columns, parse)
    ensures FastMatches(p, slots, values, parse) <==> Matches(p, row)
    decreases p
  {
    hide CompareValues, FastCompare, AgreeingLiteral, NumericView, Fits;
    match p {
      case ColumnCompare(c, op, v) =>
        CompareAgrees(columns[c].dataType, row(c), op, v, parse);
      case And(parts) =>
        forall i | 0 <= i < |parts| ensures FastMatches(parts[i], slots, values, parse) <==> Matches(parts[i], row) {
          FilterSlotsPart(parts, slots, parse, i);
          FilterAgrees(parts[i], columns, slots, values, parse, need, row);
        }
      case Or(parts) =>
        forall i | 0 <= i < |parts| ensures FastMatches(parts[i], slots, values, parse) <==> Matches(parts[i], row) {
          FilterSlotsPart(parts, slots, parse, i);
          FilterAgrees(parts[i], columns, slots, values, parse, need, row);
        }
      case Not(inner) => FilterAgrees(inner, columns, slots, values, parse, need, row);
      case IsNull(c) => NullViews(row(c));
      case IsNotNull(c) => NullViews(row(c));
      case Between(c, low, high, _) =>
        var t := columns[c].dataType;
        CompareAgrees(t, row(c), GtEq, low, parse);
        CompareAgrees(t, row(c), LtEq, high, parse);
    }
  }

  lemma NullViews(v: ColumnValue)
    ensures NumericView(v) == Some(NullSlot) <==> v.Null?
  {
  }

  /** Every filter of a list. */
  lemma FiltersAgree(ps: seq<KvPredicate>, columns: seq<ColumnSchema>, slots: seq<Option<nat>>,
      values: seq<FastNumeric>, parse: ParseF64, need: set<nat>, row: Row)
    requires FilterSlotsAll(ps, slots, parse).Some? && FilterSlotsAll(ps, slots, parse).value <= need
    requires SlotsHold(columns, slots, values, need, row)
    requires forall i :: 0 <= i < |ps| ==> AgreeingFilter(ps[i], columns, parse)
    ensures (forall i :: 0 <= i < |ps| ==> FastMatches(ps[i], slots, values, parse)) <==> AllMatch(ps, row)
  {
    hide SlotsHold, AgreeingFilter, FastMatches, Matches, FilterSlots;
    forall i | 0 <= i < |ps| ensures FastMatches(ps[i], slots, values, parse) <==> Matches(ps[i], row) {
      FilterSlotsPart(ps, slots, parse, i);
      FilterAgrees(ps[i], columns, slots, values, parse, need, row);
    }
  }

  // ---------------------------------------------------------------------------------------------
  // Slots collected and listed.

  /** A `BTreeSet` of slots below `n`, in ascending order. */
  function Ascending(s: set<nat>, n: nat): (r: seq<nat>)
    ensures forall x {:trigger x in r} :: x in r <==> x in s && x < n
    ensures forall i :: 0 <= i < |r| ==> r[i] < n
    ensures forall i, j :: 0 <= i < j < |r| ==> r[i] < r[j]
  {
    if n == 0 then [] else Ascending(s, n - 1) + if n - 1 in s then [n - 1] else []
  }

  /** `column_slots`: the position of each required column, None for the others. */
  function ColumnSlots(count: nat, required: seq<nat>, n: nat): (r: seq<Option<nat>>)
    requires n <= |required|
    ensures |r| == count
    ensures forall c :: 0 <= c < count && r[c].Some? ==> r[c].value < n && required[r[c].value] == c
    ensures forall c :: 0 <= c < count && r[c].None? ==> c !in required[..n]
  {
    if n == 0 then seq(count, _ => None)
    else
      var before := ColumnSlots(count, required, n - 1);
      if required[n - 1] < count then before[required[n - 1] := Some(n - 1)] else before
  }

  method CollectFilterSlots(p: KvPredicate, slots: seq<Option<nat>>, parse: ParseF64, found: set<nat>)
    returns (r: Option<set<nat>>)
    ensures r == Union(Some(found), FilterSlots(p, slots, parse))
    decreases p
  {
    match p {
      case Not(inner) => r := CollectFilterSlots(inner, slots, parse, found);
      case ColumnCompare(c, op, v) =>
        if LiteralView(v, parse).None? || SlotOf(slots, c).None? { return None; }
        r := Some(found + {SlotOf(slots, c).value});
      case IsNull(c) =>
        if SlotOf(slots, c).None? { return None; }
        r := Some(found + {SlotOf(slots, c).value});
      case IsNotNull(c) =>
        if SlotOf(slots, c).None? { return None; }
        r := Some(found + {SlotOf(slots, c).value});
      case Between(c, low, high, negated) =>
        if LiteralView(low, parse).None? || LiteralView(high, parse).None? || SlotOf(slots, c).None? { return None; }
        r := Some(found + {SlotOf(slots, c).value});
      case _ =>
        var parts, i, all := p.parts, 0, found;
        assert parts[0..] == parts;
        while i < |parts|
          invariant 0 <= i <= |parts|
          invariant Union(Some(found), FilterSlots(p, slots, parse)) == Union(Some(all), FilterSlotsAll(parts[i..], slots, parse))
        {
          hide FilterSlots;
          assert parts[i..][1..] == parts[i + 1..];
          var next := CollectFilterSlots(parts[i], slots, parse, all);
          if next.None? { return None; }
          UnionAssociative(Some(all), FilterSlots(parts[i], slots, parse), FilterSlotsAll(parts[i + 1..], slots, parse));
          all := next.value;
          i := i + 1;
        }
        assert all + {} == all;
        r := Some(all);
    }
  }

  lemma UnionAssociative(a: Option<set<nat>>, b: Option<set<nat>>, c: Option<set<nat>>)
    ensures Union(a, Union(b, c)) == Union(Union(a, b), c)
  {
    if a.Some? && b.Some? && c.Some? {
      assert a.value + (b.value + c.value) == a.value + b.value + c.value;
    }
  }
}
