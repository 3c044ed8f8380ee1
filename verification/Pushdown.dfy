/** Primary key predicates turned into a byte range and a residual filter. */
module Pushdown {
  import opened Basics
  import opened Bytes
  import opened Floats
  import opened Values
  import opened KeyCodec
  import opened Keys
  import opened Predicates

  datatype Bounds = Bounds(lower: KeyBound, upper: KeyBound)

  function Tightened(current: KeyBound, v: ColumnValue, inclusive: bool, better: Ordering): KeyBound {
    match current
    case None => Some((v, inclusive))
    case Some((w, wInclusive)) =>
      var o := PartialCmp(v, w);
      if o == Some(better) || (o == Some(Equal) && !inclusive && wInclusive) then Some((v, inclusive)) else current
  }

  function Applied(b: Bounds, op: KvCompareOp, v: ColumnValue): Bounds {
    match op
    case Eq => Bounds(Tightened(b.lower, v, true, Greater), Tightened(b.upper, v, true, Less))
    case Gt => b.(lower := Tightened(b.lower, v, false, Greater))
    case GtEq => b.(lower := Tightened(b.lower, v, true, Greater))
    case Lt => b.(upper := Tightened(b.upper, v, false, Less))
    case LtEq => b.(upper := Tightened(b.upper, v, true, Less))
    case NotEq => b
  }

  /** The bounds collected so far, the predicates left over, and whether any bound was used. */
  datatype Collected = Collected(bounds: Bounds, residual: seq<KvPredicate>, used: bool)

  function Collect(f: KvPredicate, pk: nat, s: Collected): Collected
    decreases f, 0
  {
    match f
    case And(parts) => CollectAll(parts, pk, s)
    case ColumnCompare(c, op, v) =>
      if c == pk && op != NotEq then s.(bounds := Applied(s.bounds, op, v), used := true)
      else s.(residual := s.residual + [f])
    case Between(c, low, high, negated) =>
      if c == pk && !negated then s.(bounds := Applied(Applied(s.bounds, GtEq, low), LtEq, high), used := true)
      else s.(residual := s.residual + [f])
    case _ => s.(residual := s.residual + [f])
  }

  function CollectAll(fs: seq<KvPredicate>, pk: nat, s: Collected): Collected
    decreases fs, 1
  {
    if fs == [] then s else CollectAll(fs[1..], pk, Collect(fs[0], pk, s))
  }

  datatype Plan = NoRange(filters: seq<KvPredicate>) | Range(scan: RangeScan, residual: seq<KvPredicate>)

  function PlanOf(schema: TableSchema, filters: seq<KvPredicate>): Plan {
    match PrimaryKeyIndex(schema.columns, schema.primaryKey)
    case None => NoRange(filters)
    case Some(pk) =>
      var s := CollectAll(filters, pk, Collected(Bounds(None, None), [], false));
      if !s.used then NoRange(s.residual)
      else Range(RowRangeBetween(schema.tableId, schema.tableEpoch, s.bounds.lower, s.bounds.upper), s.residual)
  }

  // ---------------------------------------------------------------------------------------------
  // The planner.

  class PrimaryKeyBounds {
    var lower: KeyBound
    var upper: KeyBound

    constructor ()
      ensures Value() == Bounds(None, None)
    {
      lower, upper := None, None;
    }

    function Value(): Bounds
      reads this
    {
      Bounds(lower, upper)
    }

    method TightenLower(v: ColumnValue, inclusive: bool)
      modifies this
      ensures lower == Tightened(old(lower), v, inclusive, Greater) && upper == old(upper)
    {
      var replace := false;
      match lower {
        case None => replace := true;
        case Some((current, currentInclusive)) =>
          match PartialCmp(v, current) {
            case Some(Greater) => replace := true;
            case Some(Equal) => replace := !inclusive && currentInclusive;
            case _ =>
          }
      }
      if replace {
        lower := Some((v, inclusive));
      }
    }

    method TightenUpper(v: ColumnValue, inclusive: bool)
      modifies this
      ensures upper == Tightened(old(upper), v, inclusive, Less) && lower == old(lower)
    {
      var replace := false;
      match upper {
        case None => replace := true;
        case Some((current, currentInclusive)) =>
          match PartialCmp(v, current) {
            case Some(Less) => replace := true;
            case Some(Equal) => replace := !inclusive && currentInclusive;
            case _ =>
          }
      }
      if replace {
        upper := Some((v, inclusive));
      }
    }

    method Apply(op: KvCompareOp, v: ColumnValue)
      modifies this
      ensures Value() == Applied(old(Value()), op, v)
    {
      match op {
        case Eq => TightenLower(v, true); TightenUpper(v, true);
        case Gt => TightenLower(v, false);
        case GtEq => TightenLower(v, true);
        case Lt => TightenUpper(v, false);
        case LtEq => TightenUpper(v, true);
        case NotEq =>
      }
    }
  }

  /** `collect_primary_key_bounds`. */
  method CollectPrimaryKeyBounds(f: KvPredicate, pk: nat, bounds: PrimaryKeyBounds, residual: seq<KvPredicate>, used: bool)
    returns (residual': seq<KvPredicate>, used': bool)
    modifies bounds
    ensures Collected(bounds.Value(), residual', used') == Collect(f, pk, old(Collected(bounds.Value(), residual, used)))
    decreases f
  {
    residual', used' := residual, used;
    match f {
      case And(parts) =>
        ghost var start := Collected(bounds.Value(), residual, used);
        var i := 0;
        assert parts[0..] == parts;
        while i < |parts|
          invariant 0 <= i <= |parts|
          invariant CollectAll(parts, pk, start) == CollectAll(parts[i..], pk, Collected(bounds.Value(), residual', used'))
        {
          assert parts[i..][1..] == parts[i + 1..];
          residual', used' := CollectPrimaryKeyBounds(parts[i], pk, bounds, residual', used');
          i := i + 1;
        }
      case ColumnCompare(c, op, v) =>
        if c == pk && op != NotEq {
          bounds.Apply(op, v);
          used' := true;
        } else {
          residual' := residual' + [f];
        }
      case Between(c, low, high, negated) =>
        if c == pk && !negated {
          bounds.Apply(GtEq, low);
          bounds.Apply(LtEq, high);
          used' := true;
        } else {
          residual' := residual' + [f];
        }
      case _ => residual' := residual' + [f];
    }
  }

  /** `plan_primary_key_range`. */
  method PlanPrimaryKeyRange(schema: TableSchema, filters: seq<KvPredicate>) returns (plan: Plan)
    ensures plan == PlanOf(schema, filters)
  {
    var pk := PrimaryKeyIndex(schema.columns, schema.primaryKey);
    if pk.None? {
      return NoRange(filters);
    }
    var bounds := new PrimaryKeyBounds();
    var residual, used, i := [], false, 0;
    ghost var start := Collected(Bounds(None, None), [], false);
    assert filters[0..] == filters;
    while i < |filters|
      invariant 0 <= i <= |filters| && fresh(bounds)
      invariant CollectAll(filters, pk.value, start) == CollectAll(filters[i..], pk.value, Collected(bounds.Value(), residual, used))
    {
      assert filters[i..][1..] == filters[i + 1..];
      residual, used := CollectPrimaryKeyBounds(filters[i], pk.value, bounds, residual, used);
      i := i + 1;
    }
    if !used {
      return NoRange(residual);
    }
    plan := Range(RowRangeBetween(schema.tableId, schema.tableEpoch, bounds.lower, bounds.upper), residual);
  }

  // ---------------------------------------------------------------------------------------------
  // Meaning.

  /** Every bound that the planner would take from `f` is of the key type's own variant. */
  predicate OwnLiterals(f: KvPredicate, pk: nat, t: DataType) {
    match f
    case And(parts) => forall i :: 0 <= i < |parts| ==> OwnLiterals(parts[i], pk, t)
    case ColumnCompare(c, op, v) => c == pk && op != NotEq ==> OwnVariant(t, v)
    case Between(c, low, high, negated) => c == pk && !negated ==> OwnVariant(t, low) && OwnVariant(t, high)
    case _ => true
  }

  predicate OwnBound(b: KeyBound, t: DataType) {
    b.Some? ==> OwnVariant(t, b.value.0)
  }

  predicate AboveLower(b: KeyBound, key: ColumnValue, t: DataType)
    requires IntegerType(t) && OwnBound(b, t) && OwnVariant(t, key)
  {
    b.Some? ==> if b.value.1 then IntOf(b.value.0) <= IntOf(key) else IntOf(b.value.0) < IntOf(key)
  }

  predicate BelowUpper(b: KeyBound, key: ColumnValue, t: DataType)
    requires IntegerType(t) && OwnBound(b, t) && OwnVariant(t, key)
  {
    b.Some? ==> if b.value.1 then IntOf(key) <= IntOf(b.value.0) else IntOf(key) < IntOf(b.value.0)
  }

  predicate OwnBounds(b: Bounds, t: DataType) {
    OwnBound(b.lower, t) && OwnBound(b.upper, t)
  }

  predicate Inside(b: Bounds, key: ColumnValue, t: DataType)
    requires IntegerType(t) && OwnBounds(b, t) && OwnVariant(t, key)
  {
    AboveLower(b.lower, key, t) && BelowUpper(b.upper, key, t)
  }

  /** Applying a comparison narrows the bounds by exactly that comparison. */
  lemma AppliedMeaning(b: Bounds, op: KvCompareOp, v: ColumnValue, key: ColumnValue, t: DataType)
    requires IntegerType(t) && OwnBounds(b, t) && OwnVariant(t, v) && OwnVariant(t, key) && op != NotEq
    ensures OwnBounds(Applied(b, op, v), t)
    ensures Inside(Applied(b, op, v), key, t) <==> Inside(b, key, t) && CompareValues(key, op, v)
  {
    hide Tightened;
    TightenedLower(b.lower, v, op != Gt, key, t);
    TightenedUpper(b.upper, v, op != Lt, key, t);
  }

  lemma TightenedLower(b: KeyBound, v: ColumnValue, inclusive: bool, key: ColumnValue, t: DataType)
    requires IntegerType(t) && OwnBound(b, t) && OwnVariant(t, v) && OwnVariant(t, key)
    ensures OwnBound(Tightened(b, v, inclusive, Greater), t)
    ensures AboveLower(Tightened(b, v, inclusive, Greater), key, t) <==>
      AboveLower(b, key, t) && if inclusive then IntOf(v) <= IntOf(key) else IntOf(v) < IntOf(key)
  {
  }

  lemma TightenedUpper(b: KeyBound, v: ColumnValue, inclusive: bool, key: ColumnValue, t: DataType)
    requires IntegerType(t) && OwnBound(b, t) && OwnVariant(t, v) && OwnVariant(t, key)
    ensures OwnBound(Tightened(b, v, inclusive, Less), t)
    ensures BelowUpper(Tightened(b, v, inclusive, Less), key, t) <==>
      BelowUpper(b, key, t) && if inclusive then IntOf(key) <= IntOf(v) else IntOf(key) < IntOf(v)
  {
  }

  /** What a collection state promises about a row: its key is inside the bounds and the residual holds. */
  predicate Holds(s: Collected, row: Row, pk: nat, t: DataType)
    requires IntegerType(t) && OwnBounds(s.bounds, t) && OwnVariant(t, row(pk))
  {
    Inside(s.bounds, row(pk), t) && AllMatch(s.residual, row)
  }

  lemma AllMatchAppend(fs: seq<KvPredicate>, f: KvPredicate, row: Row)
    ensures AllMatch(fs + [f], row) <==> AllMatch(fs, row) && Matches(f, row)
  {
    hide Matches;
    assert (fs + [f])[|fs|] == f;
    assert forall i :: 0 <= i < |fs| ==> (fs + [f])[i] == fs[i];
  }

  lemma AndIsAll(fs: seq<KvPredicate>, row: Row)
    ensures Matches(And(fs), row) <==> AllMatch(fs, row)
  {
  }

  /** The state after collecting `f` means what it meant before, and `f`. */
  predicate Narrowed(f: KvPredicate, s: Collected, r: Collected, row: Row, pk: nat, t: DataType)
    requires IntegerType(t) && OwnBounds(s.bounds, t) && OwnVariant(t, row(pk))
  {
    && OwnBounds(r.bounds, t) && (r.used || r.bounds == Bounds(None, None))
    && (Holds(r, row, pk, t) <==> Holds(s, row, pk, t) && Matches(f, row))
  }

  lemma CollectCompare(c: nat, op: KvCompareOp, v: ColumnValue, s: Collected, row: Row, pk: nat, t: DataType)
    requires IntegerType(t) && OwnBounds(s.bounds, t) && OwnVariant(t, row(pk)) && OwnLiterals(ColumnCompare(c, op, v), pk, t)
    requires s.used || s.bounds == Bounds(None, None)
    ensures Narrowed(ColumnCompare(c, op, v), s, Collect(ColumnCompare(c, op, v), pk, s), row, pk, t)
  {
    hide Applied, Inside, CompareValues, AllMatch, OwnBounds, OwnVariant, IntegerType;
    if c == pk && op != NotEq {
      AppliedMeaning(s.bounds, op, v, row(pk), t);
    } else {
      AllMatchAppend(s.residual, ColumnCompare(c, op, v), row);
    }
  }

  lemma CollectBetween(c: nat, low: ColumnValue, high: ColumnValue, negated: bool, s: Collected, row: Row, pk: nat, t: DataType)
    requires IntegerType(t) && OwnBounds(s.bounds, t) && OwnVariant(t, row(pk)) && OwnLiterals(Between(c, low, high, negated), pk, t)
    requires s.used || s.bounds == Bounds(None, None)
    ensures Narrowed(Between(c, low, high, negated), s, Collect(Between(c, low, high, negated), pk, s), row, pk, t)
  {
    hide Applied, Inside, CompareValues, AllMatch, OwnBounds, OwnVariant, IntegerType;
    if c == pk && !negated {
      AppliedMeaning(s.bounds, GtEq, low, row(pk), t);
      AppliedMeaning(Applied(s.bounds, GtEq, low), LtEq, high, row(pk), t);
    } else {
      AllMatchAppend(s.residual, Between(c, low, high, negated), row);
    }
  }

  lemma CollectOther(f: KvPredicate, s: Collected, row: Row, pk: nat, t: DataType)
    requires IntegerType(t) && OwnBounds(s.bounds, t) && OwnVariant(t, row(pk)) && !f.And? && !f.ColumnCompare? && !f.Between?
    requires s.used || s.bounds == Bounds(None, None)
    ensures Narrowed(f, s, Collect(f, pk, s), row, pk, t)
  {
    hide Inside, AllMatch, OwnBounds, OwnVariant, IntegerType, Matches;
    AllMatchAppend(s.residual, f, row);
  }

  lemma {:induction false} CollectMeaning(f: KvPredicate, s: Collected, row: Row, pk: nat, t: DataType)
    requires IntegerType(t) && OwnBounds(s.bounds, t) && OwnVariant(t, row(pk)) && OwnLiterals(f, pk, t)
    requires s.used || s.bounds == Bounds(None, None)
    ensures Narrowed(f, s, Collect(f, pk, s), row, pk, t)
    decreases f, 0
  {
    hide Inside, AllMatch, OwnBounds, OwnVariant, IntegerType, Holds, Matches, CollectAll, Applied;
    match f {
      case And(parts) => CollectAllMeaning(parts, s, row, pk, t); AndIsAll(parts, row);
      case ColumnCompare(c, op, v) => CollectCompare(c, op, v, s, row, pk, t);
      case Between(c, low, high, negated) => CollectBetween(c, low, high, negated, s, row, pk, t);
      case _ => CollectOther(f, s, row, pk, t);
    }
  }

  lemma {:induction false} CollectAllMeaning(fs: seq<KvPredicate>, s: Collected, row: Row, pk: nat, t: DataType)
    requires IntegerType(t) && OwnBounds(s.bounds, t) && OwnVariant(t, row(pk))
    requires forall i :: 0 <= i < |fs| ==> OwnLiterals(fs[i], pk, t)
    requires s.used || s.bounds == Bounds(None, None)
    ensures var r := CollectAll(fs, pk, s);
      && OwnBounds(r.bounds, t) && (r.used || r.bounds == Bounds(None, None))
      && (Holds(r, row, pk, t) <==> Holds(s, row, pk, t) && AllMatch(fs, row))
    decreases fs, 1
  {
    hide Collect, Matches, OwnLiterals, Inside;
    if fs != [] {
      CollectMeaning(fs[0], s, row, pk, t);
      CollectAllMeaning(fs[1..], Collect(fs[0], pk, s), row, pk, t);
      assert fs == [fs[0]] + fs[1..];
    }
  }

  /** Bounds on integers and bounds on encoded keys are the same thing. */
  lemma InsideIsWithinKeys(b: Bounds, key: ColumnValue, t: DataType)
    requires IntegerType(t) && OwnBounds(b, t) && OwnVariant(t, key)
    ensures Inside(b, key, t) <==> WithinKeys(key, b.lower, b.upper)
  {
    hide EncodeKey, Bytes.Lt;
    if b.lower.Some? { IntKeyOrder(b.lower.value.0, key); IntKeyOrder(key, b.lower.value.0); }
    if b.upper.Some? { IntKeyOrder(b.upper.value.0, key); IntKeyOrder(key, b.upper.value.0); }
  }

  /**
   * Pushdown preserves meaning: a stored row satisfies all filters exactly when its row key lies in the
   * planned range and it satisfies the residual; without a range the residual alone is equivalent.
   */
  lemma PushdownPreserves(schema: TableSchema, filters: seq<KvPredicate>, pk: nat, row: Row)
    requires PrimaryKeyIndex(schema.columns, schema.primaryKey) == Some(pk)
    requires var t := StoredKind(schema.columns[pk].dataType);
      IntegerType(t) && OwnVariant(t, row(pk)) && forall i :: 0 <= i < |filters| ==> OwnLiterals(filters[i], pk, t)
    ensures match PlanOf(schema, filters)
      case NoRange(rest) => AllMatch(filters, row) <==> AllMatch(rest, row)
      case Range(scan, residual) =>
        AllMatch(filters, row) <==> InRange(RowKey(schema.tableId, schema.tableEpoch, row(pk)), scan) && AllMatch(residual, row)
  {
    hide CollectAll, Matches, InRange, WithinKeys, RowRangeBetween, RowKey, OwnLiterals;
    var t := StoredKind(schema.columns[pk].dataType);
    var s := Collected(Bounds(None, None), [], false);
    CollectAllMeaning(filters, s, row, pk, t);
    var r := CollectAll(filters, pk, s);
    InsideIsWithinKeys(r.bounds, row(pk), t);
    RangeBetweenExact(schema.tableId, schema.tableEpoch, r.bounds.lower, r.bounds.upper, row(pk));
  }

  // ---------------------------------------------------------------------------------------------
  // Scans of a whole table.

  /** The stored rows whose keys lie in the range, in order. */
  function ScanRows(schema: TableSchema, pk: nat, rows: seq<Row>, scan: RangeScan): seq<Row> {
    if rows == [] then []
    else
      var rest := ScanRows(schema, pk, rows[1..], scan);
      if InRange(RowKey(schema.tableId, schema.tableEpoch, rows[0](pk)), scan) then [rows[0]] + rest else rest
  }

  function FilterRows(rows: seq<Row>, filters: seq<KvPredicate>): seq<Row> {
    if rows == [] then []
    else
      var rest := FilterRows(rows[1..], filters);
      if AllMatch(filters, rows[0]) then [rows[0]] + rest else rest
  }

  /** The range and residual that the aggregate planner runs: the whole table when no bound was used. */
  function ExecutedPlan(schema: TableSchema, filters: seq<KvPredicate>): (RangeScan, seq<KvPredicate>) {
    match PlanOf(schema, filters)
    case Range(scan, residual) => (scan, residual)
    case NoRange(rest) => (RowRange(schema.tableId, schema.tableEpoch), rest)
  }

  /** Scanning the planned range and filtering by the residual returns the rows of filtering a full scan. */
  lemma {:induction false} PlannedScanIsFullScan(schema: TableSchema, filters: seq<KvPredicate>, pk: nat, rows: seq<Row>)
    requires PrimaryKeyIndex(schema.columns, schema.primaryKey) == Some(pk)
    requires var t := StoredKind(schema.columns[pk].dataType);
      && IntegerType(t) && (forall i :: 0 <= i < |rows| ==> OwnVariant(t, rows[i](pk)))
      && forall i :: 0 <= i < |filters| ==> OwnLiterals(filters[i], pk, t)
    ensures var (scan, residual) := ExecutedPlan(schema, filters);
      FilterRows(ScanRows(schema, pk, rows, scan), residual) == FilterRows(rows, filters)
    decreases |rows|
  {
    hide PlanOf, AllMatch, InRange, RowKey, OwnLiterals;
    if rows != [] {
      PlannedScanIsFullScan(schema, filters, pk, rows[1..]);
      PushdownPreserves(schema, filters, pk, rows[0]);
      RowInTable(schema.tableId, schema.tableEpoch, rows[0](pk));
      var (scan, residual) := ExecutedPlan(schema, filters);
      var rest := ScanRows(schema, pk, rows[1..], scan);
      assert ([rows[0]] + rest)[1..] == rest;
    }
  }

  lemma RowInTable(t: u32, e: u64, key: ColumnValue)
    ensures InRange(RowKey(t, e, key), RowRange(t, e))
  {
    hide EncodeKey, TablePrefix, NextPrefix, InRange;
    PrefixRangeExact(RowPrefix(t, e), RowKey(t, e, key));
    assert RowKey(t, e, key)[..|RowPrefix(t, e)|] == RowPrefix(t, e);
  }

  // ---------------------------------------------------------------------------------------------
  // Literals of another variant than the key's.

  function KeyTag(t: DataType): byte {
    if t == Int16Type then 16 else if t == Int32Type then 2 else 3
  }

  function Least(t: DataType): ColumnValue {
    if t == Int16Type then Int16(-0x8000) else if t == Int32Type then Int32(-0x8000_0000) else Int64(-0x8000_0000_0000_0000)
  }

  function Greatest(t: DataType): ColumnValue {
    if t == Int16Type then Int16(0x7FFF) else if t == Int32Type then Int32(0x7FFF_FFFF) else Int64(0x7FFF_FFFF_FFFF_FFFF)
  }

  /** Does the range for a one-sided comparison take every key of the type? It looks at key tags only. */
  predicate RangeTakesAll(t: DataType, op: KvCompareOp, v: ColumnValue) {
    if op == Gt || op == GtEq then Tag(v) < KeyTag(t) else KeyTag(t) < Tag(v)
  }

  /** A key passes the bounds that the planner takes from one comparison. */
  predicate Planned(op: KvCompareOp, v: ColumnValue, key: ColumnValue) {
    var b := Applied(Bounds(None, None), op, v);
    WithinKeys(key, b.lower, b.upper)
  }

  lemma TagOrder(v: ColumnValue, w: ColumnValue)
    ensures Tag(v) < Tag(w) ==> Bytes.Lt(EncodeKey(v), EncodeKey(w)) && !Bytes.Lt(EncodeKey(w), EncodeKey(v))
  {
    hide EncodeKey;
    assert EncodeKey(v) == [Tag(v)] + Body(v) && EncodeKey(w) == [Tag(w)] + Body(w);
  }

  lemma OwnTag(t: DataType, v: ColumnValue)
    requires IntegerType(t)
    ensures OwnVariant(t, v) <==> Tag(v) == KeyTag(t)
  {
  }

  lemma CompareMonotone(t: DataType, op: KvCompareOp, v: ColumnValue, a: ColumnValue, b: ColumnValue)
    requires IntegerType(t) && OwnVariant(t, a) && OwnVariant(t, b) && IntOf(a) <= IntOf(b)
    ensures (op == Gt || op == GtEq) && CompareValues(a, op, v) ==> CompareValues(b, op, v)
    ensures (op == KvCompareOp.Lt || op == LtEq) && CompareValues(b, op, v) ==> CompareValues(a, op, v)
  {
    hide PartialCmp, ValueEq;
    OrderMonotone(t, v, a, b);
  }

  lemma OrderMonotone(t: DataType, v: ColumnValue, a: ColumnValue, b: ColumnValue)
    requires IntegerType(t) && OwnVariant(t, a) && OwnVariant(t, b) && IntOf(a) <= IntOf(b)
    ensures PartialCmp(a, v).None? <==> PartialCmp(b, v).None?
    ensures PartialCmp(a, v) == Some(Greater) ==> PartialCmp(b, v) == Some(Greater)
    ensures PartialCmp(b, v) == Some(Less) ==> PartialCmp(a, v) == Some(Less)
    ensures PartialCmp(a, v) == Some(Equal) ==> PartialCmp(b, v) != Some(Less)
  {
    hide IntToF32, IntToF64, Value32, Value64;
    IntToFloatMonotone(IntOf(a), IntOf(b));
  }

  lemma OtherVariantPlanned(t: DataType, op: KvCompareOp, v: ColumnValue, key: ColumnValue)
    requires IntegerType(t) && OwnVariant(t, key) && !OwnVariant(t, v) && op != NotEq
    ensures Planned(op, v, key) == if op == Eq then false else RangeTakesAll(t, op, v)
  {
    hide EncodeKey, Bytes.Lt;
    OwnTag(t, v);
    OwnTag(t, key);
    TagOrder(v, key);
    TagOrder(key, v);
  }

  /** One comparison with the key column becomes a range with no residual: the range alone must decide. */
  lemma OneComparisonPlan(schema: TableSchema, pk: nat, op: KvCompareOp, v: ColumnValue, key: ColumnValue)
    requires PrimaryKeyIndex(schema.columns, schema.primaryKey) == Some(pk) && op != NotEq
    ensures var plan := PlanOf(schema, [ColumnCompare(pk, op, v)]);
      && plan.Range? && plan.residual == []
      && (InRange(RowKey(schema.tableId, schema.tableEpoch, key), plan.scan) <==> Planned(op, v, key))
  {
    hide InRange, WithinKeys, RowRangeBetween, RowKey, Applied;
    var s := Collected(Bounds(None, None), [], false);
    var fs := [ColumnCompare(pk, op, v)];
    assert fs[1..] == [];
    assert CollectAll(fs, pk, s) == Collect(fs[0], pk, s);
    var b := Applied(s.bounds, op, v);
    RangeBetweenExact(schema.tableId, schema.tableEpoch, b.lower, b.upper, key);
  }

  /**
   * Exactly when a comparison may be pushed down: the literal is of the key's variant, or the operator is
   * equality, or the comparison has one answer for every key and the literal's tag gives that answer.
   */
  lemma ComparisonPushdownExact(t: DataType, op: KvCompareOp, v: ColumnValue)
    requires IntegerType(t) && op != NotEq
    ensures (forall key :: OwnVariant(t, key) ==> (Planned(op, v, key) <==> CompareValues(key, op, v))) <==>
      (OwnVariant(t, v) || op == Eq ||
        CompareValues(Least(t), op, v) == CompareValues(Greatest(t), op, v) == RangeTakesAll(t, op, v))
  {
    hide Planned, CompareValues, RangeTakesAll;
    forall key | OwnVariant(t, key)
      ensures OwnVariant(t, v) || op == Eq ==> (Planned(op, v, key) <==> CompareValues(key, op, v))
      ensures !OwnVariant(t, v) && op != Eq ==> Planned(op, v, key) == RangeTakesAll(t, op, v)
    {
      if OwnVariant(t, v) {
        OwnPlanned(t, op, v, key);
      } else {
        OtherVariantPlanned(t, op, v, key);
        if op == Eq { OtherVariantUnequal(t, v, key); }
      }
    }
    assert OwnVariant(t, Least(t)) && OwnVariant(t, Greatest(t));
    forall key | OwnVariant(t, key)
      ensures CompareValues(Least(t), op, v) == CompareValues(Greatest(t), op, v) && op != Eq ==>
        CompareValues(key, op, v) == CompareValues(Least(t), op, v)
    {
      CompareMonotone(t, op, v, Least(t), key);
      CompareMonotone(t, op, v, key, Greatest(t));
    }
  }

  lemma OwnPlanned(t: DataType, op: KvCompareOp, v: ColumnValue, key: ColumnValue)
    requires IntegerType(t) && OwnVariant(t, v) && OwnVariant(t, key) && op != NotEq
    ensures Planned(op, v, key) <==> CompareValues(key, op, v)
  {
    hide WithinKeys, Inside, CompareValues, Applied;
    var b := Bounds(None, None);
    AppliedMeaning(b, op, v, key, t);
    assert Inside(b, key, t) by { EmptyBounds(key, t); }
    InsideIsWithinKeys(Applied(b, op, v), key, t);
  }

  lemma EmptyBounds(key: ColumnValue, t: DataType)
    requires IntegerType(t) && OwnVariant(t, key)
    ensures Inside(Bounds(None, None), key, t)
  {
  }

  lemma OtherVariantUnequal(t: DataType, v: ColumnValue, key: ColumnValue)
    requires IntegerType(t) && OwnVariant(t, key) && !OwnVariant(t, v)
    ensures !CompareValues(key, Eq, v)
  {
  }

  /** An INT key compared with a BIGINT literal: 5 >= 3 holds, but the row is outside the planned range. */
  lemma MismatchedLiteralLosesRow()
    ensures CompareValues(Int32(5), GtEq, Int64(3)) && !Planned(GtEq, Int64(3), Int32(5))
  {
    OtherVariantPlanned(Int32Type, GtEq, Int64(3), Int32(5));
  }

  /** A NULL literal matches no row, but a lower bound of NULL keeps every row and leaves no residual. */
  lemma NullLiteralKeepsRow()
    ensures !CompareValues(Int32(5), GtEq, Null) && Planned(GtEq, Null, Int32(5))
  {
    OtherVariantPlanned(Int32Type, GtEq, Null, Int32(5));
  }
}
