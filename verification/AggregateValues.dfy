/** What each aggregate answers, in terms of the values of its column that are not NULL. */
module AggregateValues {
  import opened Basics
  import opened Bytes
  import opened Floats
  import opened Values
  import opened TupleCodec
  import opened KeyCodec
  import opened FastNumericDecode
  import opened Predicates
  import opened FastPredicates
  import opened SlotComparison
  import opened Aggregates
  import opened FloatAggregates
  import opened TopNOrder
  import opened OrderLaws

  /** The values of a column that are not NULL, in row order. */
  function NonNull(c: nat, rows: seq<Row>): seq<ColumnValue> {
    if rows == [] then []
    else
      var k := |rows| - 1;
      if rows[k](c).Null? then NonNull(c, rows[..k]) else NonNull(c, rows[..k]) + [rows[k](c)]
  }

  /** An INT8 that is `n`, or what is left of `n` in 64 bits. */
  predicate IsNumber(v: ColumnValue, n: int) {
    v.Int64? && (v.int64 - n) % 0x1_0000_0000_0000_0000 == 0
  }

  /** One of the values, and none of them is `beyond` it; NULL if there is none. */
  predicate IsExtreme(values: seq<ColumnValue>, beyond: Ordering, v: ColumnValue) {
    if values == [] then v == Null else v in values && forall i :: 0 <= i < |values| ==> PartialCmp(values[i], v) != Some(beyond)
  }

  function Total(values: seq<ColumnValue>): int {
    if values == [] then 0
    else
      var k := |values| - 1;
      Total(values[..k]) + if IsInt(values[k]) then IntOf(values[k]) else 0
  }

  function AsDouble(v: ColumnValue): f64 {
    match v
    case Int16(x) => IntToF64(x)
    case Int32(x) => IntToF64(x)
    case Int64(x) => IntToF64(x)
    case Float32(x) => Widen(x)
    case Float64(x) => x
    case _ => 0
  }

  /** binary64 additions in row order. */
  function AddedUp(ops: FloatOps, start: f64, values: seq<ColumnValue>): f64 {
    if values == [] then start
    else
      var k := |values| - 1;
      ops.add(AddedUp(ops, start, values[..k]), AsDouble(values[k]))
  }

  /** The kinds of columns whose values the general path adds: INT2 and NUMERIC are not among them. */
  predicate Adds(t: DataType) {
    t == Int32Type || t == Int64Type || t == Float32Type || t == Float64Type
  }

  /**
   * SUM over a column of kind `t`. On slots: the number, or the doubles added to 0. On values: NULL without any, a
   * single one as it is, else the number, or the doubles added to the first; and the first one where none are added.
   */
  predicate IsSum(ops: FloatOps, t: DataType, slots: bool, values: seq<ColumnValue>, v: ColumnValue) {
    if slots then if FloatType(t) then v == Float64(AddedUp(ops, 0, values)) else IsNumber(v, Total(values))
    else if values == [] then v == Null
    else if |values| == 1 || !Adds(t) then v == values[0]
    else if FloatType(t) then v == Float64(AddedUp(ops, AsDouble(values[0]), values[1..]))
    else IsNumber(v, Total(values))
  }

  /** AVG: the doubles added to 0, divided by their number; NULL without any, and where the general path adds none. */
  ghost predicate IsAverage(ops: FloatOps, t: DataType, slots: bool, values: seq<ColumnValue>, v: ColumnValue) {
    if !slots && !Adds(t) then v == Null
    else exists n: i64 :: IsNumber(Int64(n), |values|) && v == if n == 0 then Null else Float64(ops.div(AddedUp(ops, 0, values), IntToF64(n)))
  }

  /** The answer `v` of an aggregate over some rows, computed on numeric slots or on values. */
  ghost predicate Means(ops: FloatOps, columns: seq<ColumnSchema>, slots: bool, op: AggregateOp, rows: seq<Row>, v: ColumnValue) {
    if op.CountStar? then IsNumber(v, |rows|)
    else
      var values := NonNull(op.column, rows);
      match op
      case CountColumn(_) => IsNumber(v, |values|)
      case MaxColumn(_) => IsExtreme(values, Greater, v)
      case MinColumn(_) => IsExtreme(values, Less, v)
      case SumColumn(c) => c < |columns| && IsSum(ops, StoredKind(columns[c].dataType), slots, values, v)
      case AvgColumn(c) => c < |columns| && IsAverage(ops, StoredKind(columns[c].dataType), slots, values, v)
  }

  // ---------------------------------------------------------------------------------------------
  // The general path.

  /** NULL, or a value of the variant that a column of the kind stores. */
  predicate ColumnOf(t: DataType, c: nat, rows: seq<Row>) {
    forall i :: 0 <= i < |rows| ==> KeyOf(t, rows[i](c))
  }

  lemma WrapIsNumber(n: int)
    ensures IsNumber(Int64(WrapI64(n)), n)
  {
    var m, a := 0x1_0000_0000_0000_0000, n + 0x8000_0000_0000_0000;
    assert WrapI64(n) - n == 0 - (a / m) * m;
    ModShift(0, a / m);
  }

  lemma NonNullStep(c: nat, rows: seq<Row>, row: Row)
    ensures NonNull(c, rows + [row]) == if row(c).Null? then NonNull(c, rows) else NonNull(c, rows) + [row(c)]
  {
    assert (rows + [row])[..|rows|] == rows;
  }

  lemma {:induction false} NonNullMembers(c: nat, rows: seq<Row>, i: nat)
    requires i < |NonNull(c, rows)|
    ensures exists k :: 0 <= k < |rows| && rows[k](c) == NonNull(c, rows)[i] && !rows[k](c).Null?
    decreases |rows|
  {
    var k := |rows| - 1;
    if i < |NonNull(c, rows[..k])| {
      NonNullMembers(c, rows[..k], i);
    }
  }

  lemma {:induction false} CountFolds(ops: FloatOps, c: nat, rows: seq<Row>)
    ensures Folded(ops, CountStar, rows) == Count(WrapI64(|rows|))
    ensures Folded(ops, CountColumn(c), rows) == Count(WrapI64(|NonNull(c, rows)|))
    decreases |rows|
  {
    hide WrapI64;
    NothingYet(ops, Int64Type);
    if rows != [] {
      var k := |rows| - 1;
      CountFolds(ops, c, rows[..k]);
      WrapAdds(k, 1);
      WrapAdds(|NonNull(c, rows[..k])|, 1);
    }
  }

  predicate OrderableColumn(t: DataType, c: nat, rows: seq<Row>) {
    OrderableType(t) && forall i :: 0 <= i < |rows| ==> Orderable(t, rows[i](c))
  }

  predicate AllOrderable(t: DataType, values: seq<ColumnValue>) {
    forall i :: 0 <= i < |values| ==> Orderable(t, values[i]) && !values[i].Null?
  }

  lemma OrderableValues(t: DataType, c: nat, rows: seq<Row>)
    requires OrderableColumn(t, c, rows)
    ensures AllOrderable(t, NonNull(c, rows))
  {
    hide Orderable, OrderableType, NonNull;
    forall i | 0 <= i < |NonNull(c, rows)| ensures Orderable(t, NonNull(c, rows)[i]) && !NonNull(c, rows)[i].Null? {
      NonNullMembers(c, rows, i);
    }
  }

  lemma {:induction false} ExtremeFolds(ops: FloatOps, op: AggregateOp, t: DataType, c: nat, rows: seq<Row>)
    requires (op == MaxColumn(c) || op == MinColumn(c)) && OrderableColumn(t, c, rows)
    ensures Folded(ops, op, rows).Value?
    ensures IsExtreme(NonNull(c, rows), if op.MaxColumn? then Greater else Less, Folded(ops, op, rows).value)
    decreases |rows|
  {
    hide Orderable, OrderableType, PartialCmp, IsExtreme, Apply, AllOrderable, NonNull;
    if rows == [] {
      NoneExtreme(c, if op.MaxColumn? then Greater else Less);
    } else {
      var k := |rows| - 1;
      var front, v := rows[..k], rows[k](c);
      assert Orderable(t, v) && front + [rows[k]] == rows;
      ExtremeFolds(ops, op, t, c, front);
      NonNullStep(c, front, rows[k]);
      ExtremeApplies(ops, op, c, rows[k], Folded(ops, op, front).value);
      if !v.Null? {
        OrderableValues(t, c, front);
        ExtremeStep(t, NonNull(c, front), if op.MaxColumn? then Greater else Less, Folded(ops, op, front).value, v);
      }
    }
  }

  lemma ExtremeApplies(ops: FloatOps, op: AggregateOp, c: nat, row: Row, best: ColumnValue)
    requires op == MaxColumn(c) || op == MinColumn(c)
    ensures Apply(ops, op, row, Value(best)) == Value(
      if !row(c).Null? && (best.Null? || PartialCmp(row(c), best) == Some(if op.MaxColumn? then Greater else Less)) then row(c) else best)
  {
    hide PartialCmp;
  }

  lemma NoneExtreme(c: nat, beyond: Ordering)
    ensures IsExtreme(NonNull(c, []), beyond, Null)
  {
  }

  lemma ExtremeStep(t: DataType, values: seq<ColumnValue>, beyond: Ordering, best: ColumnValue, v: ColumnValue)
    requires OrderableType(t) && AllOrderable(t, values) && Orderable(t, v) && !v.Null? && beyond != Equal && IsExtreme(values, beyond, best)
    ensures best.Null? <==> values == []
    ensures IsExtreme(values + [v], beyond, if best.Null? || PartialCmp(v, best) == Some(beyond) then v else best)
  {
    hide Orderable, OrderableType, PartialCmp;
    PartialCmpLaws(t, v, v, v);
    assert (values + [v])[|values|] == v;
    if values != [] {
      var j :| 0 <= j < |values| && values[j] == best;
      assert (values + [v])[j] == best;
      PartialCmpLaws(t, v, best, v);
      forall i | 0 <= i < |values| ensures PartialCmp(v, best) == Some(beyond) ==> PartialCmp(values[i], v) != Some(beyond) {
        PartialCmpLaws(t, v, best, values[i]);
        PartialCmpLaws(t, values[i], best, v);
      }
    }
  }

  predicate AllOf(t: DataType, values: seq<ColumnValue>) {
    forall i :: 0 <= i < |values| ==> KeyOf(t, values[i]) && !values[i].Null?
  }

  lemma {:induction false} SumFolds(ops: FloatOps, t: DataType, c: nat, rows: seq<Row>)
    requires ColumnOf(StoredKind(t), c, rows)
    ensures var s := Folded(ops, SumColumn(c), rows);
      s.Value? && IsSum(ops, StoredKind(t), false, NonNull(c, rows), s.value) && AllOf(StoredKind(t), NonNull(c, rows))
    decreases |rows|
  {
    hide KeyOf, SumValues, IsSum, StoredKind;
    NoneAdded(ops, StoredKind(t));
    if rows != [] {
      var k := |rows| - 1;
      SumFolds(ops, t, c, rows[..k]);
      if !rows[k](c).Null? {
        SumStep(ops, t, NonNull(c, rows[..k]), Folded(ops, SumColumn(c), rows[..k]).value, rows[k](c));
      }
    }
  }

  lemma NoneAdded(ops: FloatOps, t: DataType)
    ensures IsSum(ops, t, false, [], Null)
  {
  }

  lemma TotalAppend(values: seq<ColumnValue>, v: ColumnValue)
    ensures Total(values + [v]) == Total(values) + if IsInt(v) then IntOf(v) else 0
  {
    assert (values + [v])[..|values|] == values;
  }

  lemma AddedUpAppend(ops: FloatOps, start: f64, values: seq<ColumnValue>, v: ColumnValue)
    ensures AddedUp(ops, start, values + [v]) == ops.add(AddedUp(ops, start, values), AsDouble(v))
    ensures AddedUp(ops, start, []) == start
  {
    assert (values + [v])[..|values|] == values;
  }

  lemma SumStep(ops: FloatOps, t: DataType, values: seq<ColumnValue>, s: ColumnValue, v: ColumnValue)
    requires AllOf(StoredKind(t), values) && KeyOf(StoredKind(t), v) && !v.Null? && IsSum(ops, StoredKind(t), false, values, s)
    ensures var added := SumValues(ops, s, v);
      IsSum(ops, StoredKind(t), false, values + [v], if added.Some? then added.value else s)
  {
    hide Total, AddedUp, Widen, WrapI64, IntToF64;
    var all := values + [v];
    if values == [] {
      assert all == [v];
    } else {
      hide IsSum;
      var k := StoredKind(t);
      assert all[0] == values[0] && all[1..] == values[1..] + [v];
      FirstOfMany(ops, k, values, s);
      FirstOfMany(ops, k, all, if SumValues(ops, s, v).Some? then SumValues(ops, s, v).value else s);
      if k == Int32Type || k == Int64Type {
        NumbersAdd(ops, k, values, s, v);
      } else if FloatType(k) {
        DoublesAdd(ops, k, values, s, v);
      } else {
        NothingAdds(ops, t, values[0], v);
      }
    }
  }

  /** IsSum over one value or more. */
  lemma FirstOfMany(ops: FloatOps, t: DataType, values: seq<ColumnValue>, s: ColumnValue)
    requires values != []
    ensures |values| == 1 || !Adds(t) ==> (IsSum(ops, t, false, values, s) <==> s == values[0])
    ensures |values| > 1 && FloatType(t) ==> (IsSum(ops, t, false, values, s) <==> s == Float64(AddedUp(ops, AsDouble(values[0]), values[1..])))
    ensures |values| > 1 && Adds(t) && !FloatType(t) ==> (IsSum(ops, t, false, values, s) <==> IsNumber(s, Total(values)))
  {
    hide Total, AddedUp, Widen, IntToF64;
  }

  lemma NumbersAdd(ops: FloatOps, k: DataType, values: seq<ColumnValue>, s: ColumnValue, v: ColumnValue)
    requires (k == Int32Type || k == Int64Type) && AllOf(k, values) && values != [] && KeyOf(k, v) && !v.Null?
    requires if |values| == 1 then s == values[0] else IsNumber(s, Total(values))
    ensures var added := SumValues(ops, s, v);
      added.Some? && IsNumber(added.value, Total(values + [v]))
  {
    hide Total, SumValues, KeyOf, IsNumber;
    assert KeyOf(k, values[0]) && !values[0].Null?;
    WideVariant(k, v);
    WideVariant(k, values[0]);
    TotalAppend(values, v);
    if |values| == 1 {
      TotalAppend([], values[0]);
      NothingTotal();
      assert [] + [values[0]] == values;
      ItselfIsNumber(values[0]);
    } else {
      NumberVariant(s, Total(values));
    }
    WideSum(ops, s, v, Total(values));
  }

  lemma WideVariant(k: DataType, v: ColumnValue)
    requires (k == Int32Type || k == Int64Type) && KeyOf(k, v) && !v.Null?
    ensures v.Int32? || v.Int64?
  {
  }

  lemma ItselfIsNumber(v: ColumnValue)
    requires IsInt(v)
    ensures IsNumber(Int64(IntOf(v)), IntOf(v))
  {
  }

  lemma NumberVariant(s: ColumnValue, n: int)
    requires IsNumber(s, n)
    ensures s.Int64? && Int64(IntOf(s)) == s
  {
  }

  lemma WideSum(ops: FloatOps, s: ColumnValue, v: ColumnValue, n: int)
    requires (s.Int32? || s.Int64?) && (v.Int32? || v.Int64?) && IsNumber(Int64(IntOf(s)), n)
    ensures var added := SumValues(ops, s, v);
      added.Some? && IsNumber(added.value, n + IntOf(v))
  {
    hide WrapI64;
    WrapIsNumber(IntOf(s) + IntOf(v));
    Congruent(SumValues(ops, s, v).value.int64, IntOf(s), IntOf(v), n);
  }

  lemma NothingTotal()
    ensures Total([]) == 0
  {
  }

  lemma Congruent(r: int, s: int, x: int, n: int)
    requires (r - (s + x)) % 0x1_0000_0000_0000_0000 == 0 && (s - n) % 0x1_0000_0000_0000_0000 == 0
    ensures (r - (n + x)) % 0x1_0000_0000_0000_0000 == 0
  {
  }

  lemma DoublesAdd(ops: FloatOps, k: DataType, values: seq<ColumnValue>, s: ColumnValue, v: ColumnValue)
    requires FloatType(k) && AllOf(k, values) && values != [] && KeyOf(k, v) && !v.Null?
    requires s == if |values| == 1 then values[0] else Float64(AddedUp(ops, AsDouble(values[0]), values[1..]))
    ensures SumValues(ops, s, v) == Some(Float64(AddedUp(ops, AsDouble(values[0]), values[1..] + [v])))
  {
    hide AddedUp, Widen;
    AddedUpAppend(ops, AsDouble(values[0]), values[1..], v);
    if |values| == 1 {
      assert values[1..] == [];
    }
  }

  lemma NothingAdds(ops: FloatOps, t: DataType, first: ColumnValue, v: ColumnValue)
    requires KeyOf(StoredKind(t), first) && !first.Null? && !Adds(StoredKind(t))
    ensures SumValues(ops, first, v) == None
  {
    OtherVariant(StoredKind(t), first);
  }

  lemma OtherVariant(k: DataType, v: ColumnValue)
    requires KeyOf(k, v) && !Adds(PlainType(k))
    ensures !v.Int32? && !v.Int64? && !IsFloat(v)
  {
    hide TextKey, PlainType;
  }

  lemma {:induction false} AvgFolds(ops: FloatOps, t: DataType, c: nat, rows: seq<Row>)
    requires ColumnOf(StoredKind(t), c, rows)
    ensures var values := NonNull(c, rows);
      Folded(ops, AvgColumn(c), rows) == if Adds(StoredKind(t)) then Avg(AddedUp(ops, 0, values), WrapI64(|values|)) else Avg(0, 0)
    decreases |rows|
  {
    hide KeyOf, NumericAsF64, WrapI64, StoredKind, AsDouble, Apply, NonNull, AddedUp;
    if rows == [] {
      AvgNothing(ops, c);
    } else {
      var k := |rows| - 1;
      var front, values := rows[..k], NonNull(c, rows[..k]);
      assert KeyOf(StoredKind(t), rows[k](c)) && front + [rows[k]] == rows;
      AvgFolds(ops, t, c, front);
      NonNullStep(c, front, rows[k]);
      DoubleOfColumn(t, rows[k](c));
      WrapAdds(|values|, 1);
      AddedUpAppend(ops, 0, values, rows[k](c));
      if Adds(StoredKind(t)) {
        AvgApplies(ops, c, rows[k], AddedUp(ops, 0, values), WrapI64(|values|));
      } else {
        AvgApplies(ops, c, rows[k], 0, 0);
      }
    }
  }

  lemma AvgNothing(ops: FloatOps, c: nat)
    ensures Folded(ops, AvgColumn(c), []) == Avg(0, 0) && NonNull(c, []) == [] && AddedUp(ops, 0, []) == 0 && WrapI64(0) == 0
  {
  }

  lemma AvgApplies(ops: FloatOps, c: nat, row: Row, sum: f64, n: i64)
    ensures var x := NumericAsF64(row(c));
      Apply(ops, AvgColumn(c), row, Avg(sum, n)) == if x.Some? then Avg(ops.add(sum, x.value), WrapI64(n + 1)) else Avg(sum, n)
  {
    hide NumericAsF64, WrapI64;
  }

  lemma DoubleOfColumn(t: DataType, v: ColumnValue)
    requires KeyOf(StoredKind(t), v)
    ensures NumericAsF64(v) == if v.Null? || !Adds(StoredKind(t)) then None else Some(AsDouble(v))
  {
    hide Widen, IntToF64;
  }

  /** What an aggregate's own column must hold: values of its kind, and for MIN and MAX values in a total order. */
  ghost predicate Answerable(columns: seq<ColumnSchema>, op: AggregateOp, rows: seq<Row>) {
    op.CountStar? ||
    (op.column < |columns| &&
      var t := StoredKind(columns[op.column].dataType);
      ColumnOf(t, op.column, rows) && (op.MaxColumn? || op.MinColumn? ==> OrderableColumn(t, op.column, rows)))
  }

  /** Every aggregate computed on values answers what it means. */
  lemma GeneralMeans(ops: FloatOps, columns: seq<ColumnSchema>, op: AggregateOp, rows: seq<Row>)
    requires Answerable(columns, op, rows)
    ensures Means(ops, columns, false, op, rows, AggregateResult(ops, op, rows))
  {
    hide WrapI64, IsNumber, Folded, NonNull, IsSum, IsExtreme, KeyOf, Orderable, OrderableType, StoredKind, AddedUp;
    if op.CountStar? {
      CountFolds(ops, 0, rows);
      WrapIsNumber(|rows|);
    } else {
      var c, t := op.column, columns[op.column].dataType;
      WrapIsNumber(|NonNull(c, rows)|);
      match op {
        case CountColumn(_) => CountFolds(ops, c, rows);
        case SumColumn(_) => SumFolds(ops, t, c, rows);
        case AvgColumn(_) => AvgFolds(ops, t, c, rows);
        case _ => ExtremeFolds(ops, op, StoredKind(t), c, rows);
      }
    }
  }

  // ---------------------------------------------------------------------------------------------
  // The fast path.

  lemma {:induction false} IntegersAre(ops: FloatOps, t: DataType, c: nat, rows: seq<Row>)
    requires IntegerType(t) && FitColumn(t, c, rows)
    ensures |Integers(c, rows)| == |NonNull(c, rows)| && Sum(Integers(c, rows)) == Total(NonNull(c, rows))
    ensures FloatSum(ops, Integers(c, rows)) == AddedUp(ops, 0, NonNull(c, rows))
    decreases |rows|
  {
    hide IntToF64;
    if rows != [] {
      var k := |rows| - 1;
      assert FitColumn(t, c, rows[..k]) && Fits(t, rows[k](c));
      IntegersAre(ops, t, c, rows[..k]);
      if !rows[k](c).Null? {
        var xs, v := Integers(c, rows[..k]), rows[k](c);
        SumAppend(xs, I64Of(v));
        TotalAppend(NonNull(c, rows[..k]), v);
        AddedUpAppend(ops, 0, NonNull(c, rows[..k]), v);
        assert (xs + [I64Of(v)])[..|xs|] == xs;
      }
    }
  }

  lemma {:induction false} DoublesAre(ops: FloatOps, t: DataType, c: nat, rows: seq<Row>)
    requires FloatType(t) && FitColumn(t, c, rows)
    ensures |Doubles(c, rows)| == |NonNull(c, rows)| && Added(ops, 0, Doubles(c, rows)) == AddedUp(ops, 0, NonNull(c, rows))
    decreases |rows|
  {
    hide Widen, IntToF64, IsNaN32, IsNaN64;
    if rows != [] {
      var k := |rows| - 1;
      assert FitColumn(t, c, rows[..k]) && Fits(t, rows[k](c));
      DoublesAre(ops, t, c, rows[..k]);
      if !rows[k](c).Null? {
        var v := rows[k](c);
        AddedAppend(ops, 0, Doubles(c, rows[..k]), DoubleOf(v));
        AddedUpAppend(ops, 0, NonNull(c, rows[..k]), v);
      }
    }
  }

  lemma FittingIsAnswerable(columns: seq<ColumnSchema>, op: AggregateOp, rows: seq<Row>, fast: seq<FastRow>)
    requires NumericInput(columns, op, rows, fast)
    ensures Answerable(columns, op, rows)
    ensures !op.CountStar? ==> StoredKind(columns[op.column].dataType) == columns[op.column].dataType
  {
    hide NumericView, IsNaN32, IsNaN64;
    if !op.CountStar? {
      var t := columns[op.column].dataType;
      assert StoredKind(t) == t;
      forall i | 0 <= i < |rows| ensures KeyOf(t, rows[i](op.column)) && Orderable(t, rows[i](op.column)) {
        assert Fits(t, rows[i](op.column));
      }
    }
  }

  /** Every aggregate computed on slots answers what it means. */
  lemma FastMeans(ops: FloatOps, columns: seq<ColumnSchema>, op: AggregateOp, rows: seq<Row>, fast: seq<FastRow>)
    requires NumericInput(columns, op, rows, fast)
    ensures FastInitialState(columns, op).Some? && Means(ops, columns, true, op, rows, FastResult(ops, columns, op, fast))
  {
    hide Folded, FastFolded, WrapI64, IsNumber, NonNull, IsExtreme, ShowColumn, FitColumn, StoredKind, Integers, Doubles, Total, AddedUp, Sum, Added, FloatSum;
    FittingIsAnswerable(columns, op, rows, fast);
    if op.SumColumn? || op.AvgColumn? {
      var c, t := op.column, columns[op.column].dataType;
      WrapIsNumber(|NonNull(c, rows)|);
      if FloatType(t) {
        DoublesAre(ops, t, c, rows);
        FastFloatSumMeaning(ops, columns, t, c, rows, fast);
        FloatAvgMeaning(ops, columns, t, c, rows, fast);
      } else {
        IntegersAre(ops, t, c, rows);
        WrapIsNumber(Total(NonNull(c, rows)));
        FastSumMeaning(ops, columns, t, c, rows, fast);
        AvgMeaning(ops, columns, t, c, rows, fast);
      }
    } else {
      hide Answerable;
      ColumnAgreesExactly(ops, columns, op, rows, fast);
      SameExceptSums(columns, op, rows, fast);
      hide FastResult, AggregateResult;
      GeneralMeans(ops, columns, op, rows);
    }
  }

  lemma SameExceptSums(columns: seq<ColumnSchema>, op: AggregateOp, rows: seq<Row>, fast: seq<FastRow>)
    requires NumericInput(columns, op, rows, fast) && !op.SumColumn? && !op.AvgColumn?
    ensures SameOverColumn(columns, op, rows)
  {
  }

  /** What an aggregate means depends only on its own column. */
  lemma MeansOfColumn(ops: FloatOps, columns: seq<ColumnSchema>, slots: bool, op: AggregateOp, rows: seq<Row>, others: seq<Row>, v: ColumnValue)
    requires Means(ops, columns, slots, op, rows, v) && |rows| == |others|
    requires !op.CountStar? ==> forall i :: 0 <= i < |rows| ==> rows[i](op.column) == others[i](op.column)
    ensures Means(ops, columns, slots, op, others, v)
  {
    hide IsNumber, IsExtreme, IsSum, IsAverage, StoredKind, NonNull;
    if !op.CountStar? {
      SameNonNull(op.column, rows, others);
    }
  }

  lemma {:induction false} SameNonNull(c: nat, rows: seq<Row>, others: seq<Row>)
    requires |rows| == |others| && forall i :: 0 <= i < |rows| ==> rows[i](c) == others[i](c)
    ensures NonNull(c, rows) == NonNull(c, others)
    decreases |rows|
  {
    if rows != [] {
      var k := |rows| - 1;
      SameNonNull(c, rows[..k], others[..k]);
      assert rows[k](c) == others[k](c);
    }
  }
}
