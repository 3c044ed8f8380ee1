/** Zone maps: bounds of a chunk's columns, and skipping the chunks that cannot hold a matching row. */
module ZoneMaps {
  import opened Basics
  import opened Bytes
  import opened Floats
  import opened Values
  import opened Predicates
  import opened FastPredicates
  import opened SlotComparison
  import opened KeyCodec
  import opened Pushdown
  import opened OrderLaws
  import opened TopNOrder
  import opened Filters
  import Decimal

  datatype Zone = Zone(columnId: u32, nullCount: u64, min: Option<ColumnValue>, max: Option<ColumnValue>)

  // ---------------------------------------------------------------------------------------------
  // Building zones.

  /** `update_zone`; the null count saturates. */
  function UpdatedZone(z: Zone, v: ColumnValue): Zone {
    if v.Null? then z.(nullCount := if z.nullCount < 0xFFFF_FFFF_FFFF_FFFF then z.nullCount + 1 else z.nullCount)
    else
      z.(min := if z.min.None? || PartialCmp(v, z.min.value) == Some(Less) then Some(v) else z.min,
         max := if z.max.None? || PartialCmp(v, z.max.value) == Some(Greater) then Some(v) else z.max)
  }

  function ZoneOf(columnId: u32, values: seq<ColumnValue>): Zone {
    if values == [] then Zone(columnId, 0, None, None)
    else UpdatedZone(ZoneOf(columnId, values[..|values| - 1]), values[|values| - 1])
  }

  function ColumnOf(rows: seq<RowMap>, name: string): (r: seq<ColumnValue>)
    ensures |r| == |rows|
  {
    seq(|rows|, i requires 0 <= i < |rows| => RowValue(rows[i], name))
  }

  function ZonesOf(columns: seq<ColumnSchema>, rows: seq<RowMap>): (r: seq<Zone>)
    ensures |r| == |columns|
  {
    seq(|columns|, c requires 0 <= c < |columns| => ZoneOf(columns[c].columnId, ColumnOf(rows, columns[c].name)))
  }

  /** `zone_maps_for_rows`: every zone updated row by row. */
  method ZoneMapsForRows(columns: seq<ColumnSchema>, rows: seq<RowMap>) returns (zones: array<Zone>)
    ensures fresh(zones) && zones[..] == ZonesOf(columns, rows)
  {
    zones := new Zone[|columns|](c requires 0 <= c < |columns| => Zone(columns[c].columnId, 0, None, None));
    assert zones[..] == ZonesOf(columns, rows[..0]);
    for r := 0 to |rows|
      invariant zones[..] == ZonesOf(columns, rows[..r])
    {
      UpdateZones(columns, rows, r, zones);
    }
    assert rows[..|rows|] == rows;
  }

  /** One row's turn: the zone of every column takes the row's value. */
  method UpdateZones(columns: seq<ColumnSchema>, rows: seq<RowMap>, r: nat, zones: array<Zone>)
    requires r < |rows| && zones[..] == ZonesOf(columns, rows[..r])
    modifies zones
    ensures zones[..] == ZonesOf(columns, rows[..r + 1])
  {
    hide UpdatedZone, ZoneOf, ColumnOf, RowValue;
    ghost var before, after := ZonesOf(columns, rows[..r]), ZonesOf(columns, rows[..r + 1]);
    assert zones.Length == |columns|;
    for c := 0 to |columns|
      invariant zones[..c] == after[..c] && zones[c..] == before[c..]
    {
      ColumnStep(columns[c].columnId, rows, r, columns[c].name);
      assert zones[c] == zones[c..][0] == before[c];
      zones[c] := UpdatedZone(zones[c], RowValue(rows[r], columns[c].name));
      assert zones[c + 1..] == before[c + 1..];
    }
    assert zones[..] == zones[..|columns|];
  }

  lemma ColumnStep(columnId: u32, rows: seq<RowMap>, r: nat, name: string)
    requires r < |rows|
    ensures ZoneOf(columnId, ColumnOf(rows[..r + 1], name)) == UpdatedZone(ZoneOf(columnId, ColumnOf(rows[..r], name)), RowValue(rows[r], name))
  {
    hide UpdatedZone;
    assert ColumnOf(rows[..r + 1], name)[..r] == ColumnOf(rows[..r], name);
  }

  // ---------------------------------------------------------------------------------------------
  // Zones bound their columns.

  predicate UpTo(o: Option<Ordering>) {
    o == Some(Less) || o == Some(Equal)
  }

  /** `a` does not come after `b` in the order of their column. */
  predicate NotAfter(a: ColumnValue, b: ColumnValue) {
    UpTo(PartialCmp(a, b))
  }

  /** The zone's bounds are values of the column's kind, and `v`, unless NULL, lies between them. */
  predicate BoundedBy(z: Zone, t: DataType, v: ColumnValue) {
    && (z.min.Some? ==> Orderable(t, z.min.value) && !z.min.value.Null?)
    && (z.max.Some? ==> Orderable(t, z.max.value) && !z.max.value.Null?)
    && Orderable(t, v)
    && (!v.Null? ==> z.min.Some? && z.max.Some? && NotAfter(z.min.value, v) && NotAfter(v, z.max.value))
  }

  lemma LawsMean(ab: Option<Ordering>, ba: Option<Ordering>, bc: Option<Ordering>, cb: Option<Ordering>, ac: Option<Ordering>, ca: Option<Ordering>)
    requires ab.Some? && ba.Some? && bc.Some? && ac.Some?
    requires Laws(OrEqual(ab), OrEqual(ba), OrEqual(bc), OrEqual(cb), OrEqual(ac), OrEqual(ca))
    ensures UpTo(ab) && UpTo(bc) ==> UpTo(ac)
    ensures ab == Some(Less) ==> UpTo(ab) && !UpTo(ba)
    ensures ab == Some(Greater) ==> UpTo(ba) && !UpTo(ab)
    ensures ab != Some(Less) ==> UpTo(ba)
    ensures ab != Some(Greater) ==> UpTo(ab)
    ensures ab == ba ==> UpTo(ab)
  {
  }

  lemma NotAfterLaws(t: DataType, a: ColumnValue, b: ColumnValue, c: ColumnValue)
    requires OrderableType(t) && Orderable(t, a) && Orderable(t, b) && Orderable(t, c) && !a.Null? && !b.Null? && !c.Null?
    ensures PartialCmp(a, b).Some? && PartialCmp(b, a).Some?
    ensures NotAfter(a, a)
    ensures NotAfter(a, b) && NotAfter(b, c) ==> NotAfter(a, c)
    ensures PartialCmp(a, b) == Some(Less) ==> NotAfter(a, b) && !NotAfter(b, a)
    ensures PartialCmp(a, b) == Some(Greater) ==> NotAfter(b, a) && !NotAfter(a, b)
    ensures PartialCmp(a, b) != Some(Less) ==> NotAfter(b, a)
    ensures PartialCmp(a, b) != Some(Greater) ==> NotAfter(a, b)
  {
    hide PartialCmp, Orderable, OrderableType, Laws, OrEqual, UpTo;
    PartialCmpLaws(t, a, b, c);
    LawsMean(PartialCmp(a, b), PartialCmp(b, a), PartialCmp(b, c), PartialCmp(c, b), PartialCmp(a, c), PartialCmp(c, a));
    PartialCmpLaws(t, a, a, a);
    LawsMean(PartialCmp(a, a), PartialCmp(a, a), PartialCmp(a, a), PartialCmp(a, a), PartialCmp(a, a), PartialCmp(a, a));
  }

  lemma UpdateBounds(z: Zone, t: DataType, v: ColumnValue, w: ColumnValue)
    requires OrderableType(t) && Orderable(t, v) && BoundedBy(z, t, w)
    ensures BoundedBy(UpdatedZone(z, v), t, v) && BoundedBy(UpdatedZone(z, v), t, w)
  {
    hide PartialCmp, Orderable, OrderableType, NotAfter;
    if !v.Null? {
      NotAfterLaws(t, v, v, v);
      if z.min.Some? {
        NotAfterLaws(t, v, z.min.value, if w.Null? then v else w);
      }
      if z.max.Some? {
        NotAfterLaws(t, v, z.max.value, v);
        if !w.Null? { NotAfterLaws(t, w, z.max.value, v); }
      }
      if z.min.Some? && z.max.Some? {
        NotAfterLaws(t, z.min.value, v, z.max.value);
      }
    }
  }

  /** The zone of a homogeneous, NaN-free column bounds every value of it. */
  lemma {:induction false} ZoneBounds(columnId: u32, values: seq<ColumnValue>, t: DataType, i: nat)
    requires OrderableType(t) && i < |values| && forall j :: 0 <= j < |values| ==> Orderable(t, values[j])
    ensures BoundedBy(ZoneOf(columnId, values), t, values[i])
    decreases |values|
  {
    hide UpdatedZone, Orderable, OrderableType, BoundedBy;
    var k := |values| - 1;
    var before := ZoneOf(columnId, values[..k]);
    if k == 0 {
      UpdateEmpty(columnId, t, values[0]);
    } else {
      ZoneBounds(columnId, values[..k], t, if i < k then i else 0);
      UpdateBounds(before, t, values[k], values[if i < k then i else 0]);
    }
  }

  lemma UpdateEmpty(columnId: u32, t: DataType, v: ColumnValue)
    requires OrderableType(t) && Orderable(t, v)
    ensures BoundedBy(UpdatedZone(Zone(columnId, 0, None, None), v), t, v)
  {
    hide PartialCmp, Orderable, OrderableType, NotAfter;
    if !v.Null? {
      NotAfterLaws(t, v, v, v);
    }
  }

  // ---------------------------------------------------------------------------------------------
  // Zones of float columns with NaN.

  function FirstNonNull(values: seq<ColumnValue>): (r: Option<ColumnValue>)
    ensures r.Some? ==> !r.value.Null? && r.value in values
    ensures r.None? ==> forall i :: 0 <= i < |values| ==> values[i].Null?
  {
    if values == [] then None else if !values[0].Null? then Some(values[0]) else FirstNonNull(values[1..])
  }

  lemma {:induction false} FirstOfPrefix(values: seq<ColumnValue>, last: ColumnValue)
    ensures FirstNonNull(values + [last]) ==
      if FirstNonNull(values).Some? then FirstNonNull(values) else if last.Null? then None else Some(last)
    decreases |values|
  {
    if values == [] {
      assert [last][1..] == [] && [] + [last] == [last];
    } else {
      assert (values + [last])[1..] == values[1..] + [last];
      FirstOfPrefix(values[1..], last);
    }
  }

  lemma LastStep(columnId: u32, values: seq<ColumnValue>)
    requires values != []
    ensures var (before, last) := (values[..|values| - 1], values[|values| - 1]);
      && ZoneOf(columnId, values) == UpdatedZone(ZoneOf(columnId, before), last)
      && FirstNonNull(values) == if FirstNonNull(before).Some? then FirstNonNull(before) else if last.Null? then None else Some(last)
  {
    var (before, last) := (values[..|values| - 1], values[|values| - 1]);
    FirstOfPrefix(before, last);
    assert before + [last] == values;
  }

  lemma {:induction false} NoBoundsYet(columnId: u32, values: seq<ColumnValue>)
    ensures FirstNonNull(values).None? <==> ZoneOf(columnId, values).min.None?
    ensures FirstNonNull(values).None? <==> ZoneOf(columnId, values).max.None?
    decreases |values|
  {
    hide PartialCmp;
    if values != [] {
      LastStep(columnId, values);
      NoBoundsYet(columnId, values[..|values| - 1]);
    }
  }

  /** A NaN that comes first, but for NULLs, stays both bounds for good, whatever follows. */
  lemma {:induction false} NaNZone(columnId: u32, values: seq<ColumnValue>)
    requires FirstNonNull(values).Some? && IsNaN(FirstNonNull(values).value)
    ensures ZoneOf(columnId, values).min == FirstNonNull(values) == ZoneOf(columnId, values).max
    decreases |values|
  {
    hide IsNaN, PartialCmp, FirstNonNull;
    var (before, last) := (values[..|values| - 1], values[|values| - 1]);
    LastStep(columnId, values);
    if FirstNonNull(before).Some? {
      NaNZone(columnId, before);
      NaNComparesWithNothing(last, FirstNonNull(values).value);
    } else {
      NoBoundsYet(columnId, before);
    }
  }

  /** The column with NULL for NaN. */
  function Numbers(values: seq<ColumnValue>): (r: seq<ColumnValue>)
    ensures |r| == |values| && forall i :: 0 <= i < |values| ==> r[i] == if IsNaN(values[i]) then Null else values[i]
  {
    seq(|values|, i requires 0 <= i < |values| => if IsNaN(values[i]) then Null else values[i])
  }

  /** After a number, a NaN moves no bound. */
  lemma {:induction false} LaterNaNsIgnored(columnId: u32, values: seq<ColumnValue>)
    requires FirstNonNull(values).Some? ==> !IsNaN(FirstNonNull(values).value)
    ensures ZoneOf(columnId, values).min == ZoneOf(columnId, Numbers(values)).min
    ensures ZoneOf(columnId, values).max == ZoneOf(columnId, Numbers(values)).max
    decreases |values|
  {
    hide PartialCmp, IsNaN, FirstNonNull;
    if values != [] {
      var (before, last) := (values[..|values| - 1], values[|values| - 1]);
      LastStep(columnId, values);
      LaterNaNsIgnored(columnId, before);
      assert Numbers(values)[..|values| - 1] == Numbers(before);
      NoBoundsYet(columnId, before);
      if IsNaN(last) {
        NaNIsNotNull(last);
        NaNComparesWithNothing(ZoneOf(columnId, before).min.value, last);
        NaNComparesWithNothing(ZoneOf(columnId, before).max.value, last);
      }
    }
  }

  lemma NaNIsNotNull(v: ColumnValue)
    requires IsNaN(v)
    ensures !v.Null?
  {
  }

  predicate WithinZone(z: Zone, v: ColumnValue) {
    z.min.Some? && z.max.Some? && NotAfter(z.min.value, v) && NotAfter(v, z.max.value)
  }

  /**
   * The zone of a float column bounds every number in it exactly when the column does not begin with a NaN, NULLs
   * aside, or has no number at all.
   */
  lemma FloatZoneBoundsExactly(columnId: u32, t: DataType, values: seq<ColumnValue>)
    requires (t == Float32Type || t == Float64Type) && forall i :: 0 <= i < |values| ==> FloatValue(t, values[i])
    ensures (forall i :: 0 <= i < |values| && IsNumber(values[i]) ==> WithinZone(ZoneOf(columnId, values), values[i])) <==>
      (FirstNonNull(values).Some? && IsNaN(FirstNonNull(values).value) ==>
        forall i {:trigger values[i]} :: 0 <= i < |values| ==> !IsNumber(values[i]))
  {
    hide PartialCmp, IsNaN, FirstNonNull, ZoneOf, FloatValue;
    var z := ZoneOf(columnId, values);
    if FirstNonNull(values).Some? && IsNaN(FirstNonNull(values).value) {
      NaNZone(columnId, values);
      forall i | 0 <= i < |values| && IsNumber(values[i]) ensures !WithinZone(z, values[i]) {
        NaNComparesWithNothing(values[i], FirstNonNull(values).value);
      }
    } else {
      LaterNaNsIgnored(columnId, values);
      forall i | 0 <= i < |values| ensures Orderable(t, Numbers(values)[i]) {
        assert FloatValue(t, values[i]);
        NumberIsOrderable(t, values[i]);
      }
      forall i | 0 <= i < |values| && IsNumber(values[i]) ensures WithinZone(z, values[i]) {
        ZoneBounds(columnId, Numbers(values), t, i);
      }
    }
  }

  // ---------------------------------------------------------------------------------------------
  // May a chunk match?

  function FindColumn(columns: seq<ColumnSchema>, name: string): Option<ColumnSchema> {
    if columns == [] then None else if columns[0].name == name then Some(columns[0]) else FindColumn(columns[1..], name)
  }

  function FindZone(zones: seq<Zone>, columnId: u32): Option<Zone> {
    if zones == [] then None else if zones[0].columnId == columnId then Some(zones[0]) else FindZone(zones[1..], columnId)
  }

  /** A bound is absent, or compares with the literal as wanted. */
  predicate BoundAllows(bound: Option<ColumnValue>, op: KvCompareOp, w: ColumnValue) {
    bound.Some? ==> Accepts(op, PartialCmp(bound.value, w))
  }

  predicate ZoneMayMatch(z: Zone, op: KvCompareOp, w: ColumnValue) {
    match op
    case Eq =>
      && (z.min.Some? ==> Accepts(GtEq, PartialCmp(w, z.min.value)))
      && (z.max.Some? ==> Accepts(LtEq, PartialCmp(w, z.max.value)))
    case NotEq => true
    case Gt => BoundAllows(z.max, Gt, w)
    case GtEq => BoundAllows(z.max, GtEq, w)
    case Lt => BoundAllows(z.min, KvCompareOp.Lt, w)
    case LtEq => BoundAllows(z.min, LtEq, w)
  }

  /** `chunk_may_match_column_compare`. */
  predicate ColumnMayMatch(columns: seq<ColumnSchema>, zones: seq<Zone>, name: string, op: KvCompareOp, w: ColumnValue) {
    match FindColumn(columns, name)
    case None => true
    case Some(c) =>
      match FindZone(zones, c.columnId)
      case None => true
      case Some(z) => ZoneMayMatch(z, op, w)
  }

  function ReverseOp(op: KvCompareOp): KvCompareOp {
    match op
    case Gt => KvCompareOp.Lt
    case GtEq => LtEq
    case Lt => KvCompareOp.Gt
    case LtEq => GtEq
    case _ => op
  }

  /** `literal_column_pair`. */
  function Pair(column: Expr, literal: Expr): Option<(string, ColumnValue)> {
    if column.Column? && literal.Literal? && literal.value.Some? then Some((column.name, literal.value.value)) else None
  }

  /** `chunk_may_match_filter`. */
  predicate MayMatch(columns: seq<ColumnSchema>, zones: seq<Zone>, e: Expr) {
    match e
    case Binary(left, AndOp, right) => MayMatch(columns, zones, left) && MayMatch(columns, zones, right)
    case Binary(left, OrOp, right) => MayMatch(columns, zones, left) || MayMatch(columns, zones, right)
    case Binary(left, Comparison(op), right) =>
      (match (Pair(left, right), Pair(right, left))
       case (Some((name, w)), _) => ColumnMayMatch(columns, zones, name, op, w)
       case (None, Some((name, w))) => ColumnMayMatch(columns, zones, name, ReverseOp(op), w)
       case _ => true)
    case BetweenExpr(inner, low, high, negated) =>
      (match Pair(inner, low)
       case None => true
       case Some((name, w)) =>
         if ColumnMayMatch(columns, zones, name, GtEq, w) then
           match Pair(inner, high)
           case None => true
           case Some((name', w')) => ColumnMayMatch(columns, zones, name', LtEq, w')
         else negated)
    case _ => true
  }

  // ---------------------------------------------------------------------------------------------
  // Nothing that matches is skipped.

  /** A value that no literal compares with: NULL, NUMERIC, JSON or an array. */
  predicate Incomparable(v: ColumnValue) {
    v.Null? || v.Numeric? || v.Json? || v.Jsonb? || v.Array?
  }

  /** Every value of the row is within its column's zone, or is one that literals do not compare with. */
  predicate RowBounded(columns: seq<ColumnSchema>, zones: seq<Zone>, row: RowMap) {
    forall name {:trigger row[name]} :: name in row && FindColumn(columns, name).Some? ==>
      var c := FindColumn(columns, name).value;
      FindZone(zones, c.columnId).Some? ==>
        (Incomparable(row[name]) ||
         (OrderableType(StoredKind(c.dataType)) && BoundedBy(FindZone(zones, c.columnId).value, StoredKind(c.dataType), row[name])))
  }

  /** A NUMERIC literal for a NUMERIC column must be one that parses. */
  predicate NumberFor(t: DataType, w: ColumnValue) {
    t == NumericType && w.Numeric? ==> Decimal.Parse(w.str).Some?
  }

  /** Comparing with a literal is monotone in the order of the column. */
  lemma LiteralMonotone(t: DataType, a: ColumnValue, b: ColumnValue, w: ColumnValue)
    requires OrderableType(t) && Orderable(t, a) && Orderable(t, b) && !a.Null? && !b.Null? && NotAfter(a, b) && NumberFor(t, w)
    ensures PartialCmp(a, w).None? <==> PartialCmp(b, w).None?
    ensures PartialCmp(a, w) == Some(Greater) ==> PartialCmp(b, w) == Some(Greater)
    ensures PartialCmp(b, w) == Some(Less) ==> PartialCmp(a, w) == Some(Less)
    ensures PartialCmp(a, w) == Some(Equal) ==> PartialCmp(b, w) != Some(Less)
  {
    hide PartialCmp, Orderable, OrderableType, NotAfter;
    if IntegerType(t) {
      OwnMonotone(t, a, b);
      OrderMonotone(t, w, a, b);
    } else if t == Float32Type || t == Float64Type {
      FloatFits(t, a);
      FloatFits(t, b);
      FloatMonotone(t, a, b, w);
    } else {
      OtherMonotone(t, a, b, w);
    }
  }

  lemma FloatFits(t: DataType, v: ColumnValue)
    requires (t == Float32Type || t == Float64Type) && Orderable(t, v)
    ensures Fits(t, v)
  {
  }

  lemma OwnMonotone(t: DataType, a: ColumnValue, b: ColumnValue)
    requires IntegerType(t) && Orderable(t, a) && Orderable(t, b) && !a.Null? && !b.Null? && NotAfter(a, b)
    ensures OwnVariant(t, a) && OwnVariant(t, b) && IntOf(a) <= IntOf(b)
  {
  }

  lemma FloatMonotone(t: DataType, a: ColumnValue, b: ColumnValue, w: ColumnValue)
    requires (t == Float32Type || t == Float64Type) && Fits(t, a) && Fits(t, b) && !a.Null? && !b.Null? && NotAfter(a, b)
    ensures PartialCmp(a, w).None? <==> PartialCmp(b, w).None?
    ensures PartialCmp(a, w) == Some(Greater) ==> PartialCmp(b, w) == Some(Greater)
    ensures PartialCmp(b, w) == Some(Less) ==> PartialCmp(a, w) == Some(Less)
    ensures PartialCmp(a, w) == Some(Equal) ==> PartialCmp(b, w) != Some(Less)
  {
    hide Value32, Value64, Widen, IntToF32, IntToF64;
    if a.Float32? {
      WidenOrder(a.bits32, b.bits32);
      WidenOrder(b.bits32, a.bits32);
    }
  }

  lemma OtherComparable(t: DataType, a: ColumnValue, w: ColumnValue)
    requires OrderableType(t) && !IntegerType(t) && t != Float32Type && t != Float64Type && Orderable(t, a) && !a.Null? && NumberFor(t, w)
    ensures PartialCmp(a, w).Some? <==> Orderable(t, w) && !w.Null?
  {
    hide Decimal.CmpBytes, Decimal.NumericCmp, Decimal.Parse;
  }

  lemma OtherMonotone(t: DataType, a: ColumnValue, b: ColumnValue, w: ColumnValue)
    requires OrderableType(t) && !IntegerType(t) && t != Float32Type && t != Float64Type
    requires Orderable(t, a) && Orderable(t, b) && !a.Null? && !b.Null? && NotAfter(a, b) && NumberFor(t, w)
    ensures PartialCmp(a, w).None? <==> PartialCmp(b, w).None?
    ensures PartialCmp(a, w) == Some(Greater) ==> PartialCmp(b, w) == Some(Greater)
    ensures PartialCmp(b, w) == Some(Less) ==> PartialCmp(a, w) == Some(Less)
    ensures PartialCmp(a, w) == Some(Equal) ==> PartialCmp(b, w) != Some(Less)
  {
    hide PartialCmp, Orderable, OrderableType;
    OtherComparable(t, a, w);
    OtherComparable(t, b, w);
    if Orderable(t, w) && !w.Null? {
      PartialCmpLaws(t, a, b, w);
    }
  }

  /** A value within a zone that satisfies a comparison keeps the zone's chunk. */
  lemma ComparisonKept(z: Zone, t: DataType, v: ColumnValue, op: KvCompareOp, w: ColumnValue)
    requires OrderableType(t) && BoundedBy(z, t, v) && CompareValues(v, op, w) && NumberFor(t, w)
    ensures ZoneMayMatch(z, op, w)
  {
    hide PartialCmp, Orderable, OrderableType, NotAfter, ValueEq;
    LiteralMonotone(t, v, z.max.value, w);
    LiteralMonotone(t, z.min.value, v, w);
    if op == Eq {
      EqualIsOrderable(t, v, w);
      NotAfterLaws(t, z.min.value, v, w);
      NotAfterLaws(t, w, v, z.max.value);
      NotAfterLaws(t, w, z.min.value, v);
      NotAfterLaws(t, w, z.max.value, v);
    }
  }

  lemma EqualIsOrderable(t: DataType, v: ColumnValue, w: ColumnValue)
    requires OrderableType(t) && Orderable(t, v) && !v.Null? && ValueEq(v, w)
    ensures Orderable(t, w) && !w.Null? && NotAfter(v, w) && NotAfter(w, v)
  {
    hide Value32, Value64;
    if !v.Float32? && !v.Float64? {
      NotAfterLaws(t, v, v, v);
    }
  }

  /** A literal on the left compares as it does on the right with the operator reversed. */
  lemma ReversedComparison(t: DataType, v: ColumnValue, op: KvCompareOp, w: ColumnValue)
    requires OrderableType(t) && Orderable(t, v) && NumberFor(t, w)
    ensures CompareValues(w, op, v) <==> CompareValues(v, ReverseOp(op), w)
  {
    hide PartialCmp, ValueEq, Orderable, OrderableType;
    if !v.Null? && !w.Null? {
      FlippedCmp(t, v, w);
      EqSymmetric(t, v, w);
    }
  }

  function FlipOption(o: Option<Ordering>): Option<Ordering> {
    if o.None? then None else Some(o.value.Reverse())
  }

  lemma FlippedCmp(t: DataType, v: ColumnValue, w: ColumnValue)
    requires OrderableType(t) && Orderable(t, v) && !v.Null? && NumberFor(t, w)
    ensures PartialCmp(w, v) == FlipOption(PartialCmp(v, w))
  {
    hide PartialCmp;
    if IntegerType(t) || t == Float32Type || t == Float64Type {
      FlippedNumber(v, w);
    } else {
      FlippedOther(t, v, w);
    }
  }

  lemma FlippedOther(t: DataType, v: ColumnValue, w: ColumnValue)
    requires OrderableType(t) && !IntegerType(t) && t != Float32Type && t != Float64Type && Orderable(t, v) && !v.Null? && NumberFor(t, w)
    ensures PartialCmp(w, v) == FlipOption(PartialCmp(v, w))
  {
    hide PartialCmp, Orderable, OrderableType, Laws, OrEqual;
    OtherComparable(t, v, w);
    if Orderable(t, w) && !w.Null? {
      PartialCmpLaws(t, v, w, v);
      FlipOfLaws(PartialCmp(v, w), PartialCmp(w, v), PartialCmp(v, v));
    } else {
      NothingCompares(t, v, w);
    }
  }

  lemma FlipOfLaws(ab: Option<Ordering>, ba: Option<Ordering>, aa: Option<Ordering>)
    requires ab.Some? && ba.Some? && Laws(OrEqual(ab), OrEqual(ba), OrEqual(ba), OrEqual(ab), OrEqual(aa), OrEqual(aa))
    ensures ba == FlipOption(ab)
  {
  }

  lemma FlippedNumber(v: ColumnValue, w: ColumnValue)
    requires IsInt(v) || IsFloat(v)
    ensures PartialCmp(w, v) == FlipOption(PartialCmp(v, w))
  {
    hide Value32, Value64, Widen, IntToF32, IntToF64;
  }

  lemma NothingCompares(t: DataType, v: ColumnValue, w: ColumnValue)
    requires OrderableType(t) && !IntegerType(t) && t != Float32Type && t != Float64Type && Orderable(t, v) && !v.Null?
    requires (!Orderable(t, w) || w.Null?) && NumberFor(t, w)
    ensures PartialCmp(w, v).None?
  {
    hide Decimal.CmpBytes, Decimal.NumericCmp, Decimal.Parse, Value32, Value64;
  }

  lemma EqSymmetric(t: DataType, v: ColumnValue, w: ColumnValue)
    requires OrderableType(t) && Orderable(t, v)
    ensures ValueEq(v, w) <==> ValueEq(w, v)
  {
    hide ValueEq;
    if v.Float32? || v.Float64? {
      FloatEqSymmetric(v, w);
    } else {
      EqIsSame(v, w);
      EqIsSame(w, v);
    }
  }

  lemma FloatEqSymmetric(v: ColumnValue, w: ColumnValue)
    requires v.Float32? || v.Float64?
    ensures ValueEq(v, w) <==> ValueEq(w, v)
  {
    hide Value32, Value64;
  }

  lemma EqIsSame(v: ColumnValue, w: ColumnValue)
    requires !(v.Float32? && w.Float32?) && !(v.Float64? && w.Float64?) && !(v.Array? && w.Array?)
    ensures ValueEq(v, w) <==> v == w
  {
    hide Value32, Value64;
  }
}
