/** What a zone holds: the number of NULLs, and bounds that are values of the column. */
module ZoneMeaning {
  import opened Basics
  import opened Bytes
  import opened Values
  import opened SlotComparison
  import opened OrderLaws
  import opened TopNOrder
  import opened ZoneMaps

  function NullCount(values: seq<ColumnValue>): nat {
    if values == [] then 0 else NullCount(values[1..]) + if values[0].Null? then 1 else 0
  }

  lemma {:induction false} NullCountAppend(values: seq<ColumnValue>, v: ColumnValue)
    ensures NullCount(values + [v]) == NullCount(values) + if v.Null? then 1 else 0
    decreases |values|
  {
    if values == [] {
      assert [v][1..] == [] && [] + [v] == [v];
    } else {
      assert (values + [v])[1..] == values[1..] + [v];
      NullCountAppend(values[1..], v);
    }
  }

  /** The count is that of the NULLs, up to the largest u64; the bounds, if any, are values of the column. */
  lemma {:induction false} ZoneHolds(columnId: u32, values: seq<ColumnValue>)
    ensures var z, n := ZoneOf(columnId, values), NullCount(values);
      && z.columnId == columnId && z.nullCount == (if n < 0x1_0000_0000_0000_0000 then n else 0xFFFF_FFFF_FFFF_FFFF)
      && (z.min.Some? ==> z.min.value in values && !z.min.value.Null?)
      && (z.max.Some? ==> z.max.value in values && !z.max.value.Null?)
    decreases |values|
  {
    hide PartialCmp, NullCount;
    NoNulls();
    if values != [] {
      var k := |values| - 1;
      ZoneHolds(columnId, values[..k]);
      NullCountAppend(values[..k], values[k]);
      assert values[..k] + [values[k]] == values;
      assert forall v :: v in values[..k] ==> v in values;
    }
  }

  lemma NoNulls()
    ensures NullCount([]) == 0
  {
  }

  /** The zone of an INT8 column: its least and its greatest number, and none without one. */
  lemma IntegerZone(columnId: u32, values: seq<ColumnValue>)
    requires forall i :: 0 <= i < |values| ==> values[i].Null? || values[i].Int64?
    ensures var z := ZoneOf(columnId, values);
      && (z.min.None? <==> forall i :: 0 <= i < |values| ==> values[i].Null?) && (z.max.None? <==> z.min.None?)
      && (z.min.Some? ==> z.min.value.Int64? && forall i :: 0 <= i < |values| && !values[i].Null? ==> z.min.value.int64 <= values[i].int64)
      && (z.max.Some? ==> z.max.value.Int64? && forall i :: 0 <= i < |values| && !values[i].Null? ==> values[i].int64 <= z.max.value.int64)
  {
    hide PartialCmp, ZoneOf, Orderable, OrderableType;
    var z := ZoneOf(columnId, values);
    ZoneHolds(columnId, values);
    NoBoundsYet(columnId, values);
    IntegersOrderable(values);
    forall i | 0 <= i < |values|
      ensures BoundedBy(z, Int64Type, values[i])
      ensures !values[i].Null? ==> z.min.Some? && z.max.Some? && z.min.value.Int64? && z.max.value.Int64?
      ensures !values[i].Null? ==> z.min.value.int64 <= values[i].int64 <= z.max.value.int64
    {
      ZoneBounds(columnId, values, Int64Type, i);
      if !values[i].Null? {
        TopNOrder.NumbersCompare(z.min.value, values[i]);
        TopNOrder.NumbersCompare(values[i], z.max.value);
      }
    }
  }

  lemma IntegersOrderable(values: seq<ColumnValue>)
    requires forall i :: 0 <= i < |values| ==> values[i].Null? || values[i].Int64?
    ensures OrderableType(Int64Type) && forall i :: 0 <= i < |values| ==> Orderable(Int64Type, values[i])
  {
  }
}
