/** What the aggregates compute over a float column, on both paths, and exactly when all aggregates agree. */
module FloatAggregates {
  import opened Basics
  import opened Bytes
  import opened Floats
  import opened FloatRounding
  import opened Values
  import opened TupleCodec
  import opened FastNumericDecode
  import opened Predicates
  import opened FastPredicates
  import opened SlotComparison
  import opened Aggregates

  predicate FloatType(t: DataType) {
    t == Float32Type || t == Float64Type
  }

  /** A float as the binary64 that its slot holds. */
  function DoubleOf(v: ColumnValue): f64
    requires IsFloat(v)
  {
    match v
    case Float32(x) => Widen(x)
    case Float64(x) => x
  }

  /** The non-null values of a float column, in row order. */
  function Doubles(c: nat, rows: seq<Row>): seq<f64> {
    if rows == [] then []
    else
      var last, before := rows[|rows| - 1](c), Doubles(c, rows[..|rows| - 1]);
      if IsFloat(last) then before + [DoubleOf(last)] else before
  }

  /** binary64 additions in order. */
  function Added(ops: FloatOps, start: f64, ys: seq<f64>): f64 {
    if ys == [] then start else AddF64(ops, Added(ops, start, ys[..|ys| - 1]), ys[|ys| - 1])
  }

  lemma AddedAppend(ops: FloatOps, start: f64, ys: seq<f64>, y: f64)
    ensures Added(ops, start, ys + [y]) == AddF64(ops, Added(ops, start, ys), y)
  {
    assert (ys + [y])[..|ys|] == ys;
  }

  predicate NoNaN(ys: seq<f64>) {
    forall i :: 0 <= i < |ys| ==> !IsNaN64(ys[i])
  }

  predicate Greatest(ys: seq<f64>, m: f64) {
    m in ys && forall y :: y in ys ==> Value64(y) <= Value64(m)
  }

  predicate Smallest(ys: seq<f64>, m: f64) {
    m in ys && forall y :: y in ys ==> Value64(m) <= Value64(y)
  }

  lemma FloatView(t: DataType, v: ColumnValue, x: FastNumeric)
    requires FloatType(t) && Fits(t, v) && NumericView(v) == Some(x)
    ensures (v.Null? && x.NullSlot?) || (IsFloat(v) && x == F64(DoubleOf(v)) && !IsNaN64(DoubleOf(v)))
  {
    hide Widen;
  }

  /** The last row and the rows before it. */
  lemma LastFloatRow(t: DataType, c: nat, rows: seq<Row>, fast: seq<FastRow>)
    requires FloatType(t) && FitColumn(t, c, rows) && |rows| == |fast| && ShowColumn(c, rows, fast) && rows != []
    ensures var k := |rows| - 1;
      var v, x := rows[k](c), fast[k](c);
      && FitColumn(t, c, rows[..k]) && ShowColumn(c, rows[..k], fast[..k])
      && Fits(t, v) && NumericView(v) == Some(x)
      && ((v.Null? && x.NullSlot?) || (IsFloat(v) && x == F64(DoubleOf(v)) && !IsNaN64(DoubleOf(v))))
  {
    hide Fits, NumericView, Widen;
    assert Fits(t, rows[|rows| - 1](c));
    FloatView(t, rows[|rows| - 1](c), fast[|rows| - 1](c));
  }

  lemma {:induction false} DoublesAreNumbers(t: DataType, c: nat, rows: seq<Row>, fast: seq<FastRow>)
    requires FloatType(t) && FitColumn(t, c, rows) && |rows| == |fast| && ShowColumn(c, rows, fast)
    ensures NoNaN(Doubles(c, rows))
    decreases |rows|
  {
    hide FitColumn, ShowColumn, Fits, NumericView, DoubleOf, IsNaN64;
    if rows != [] {
      LastFloatRow(t, c, rows, fast);
      DoublesAreNumbers(t, c, rows[..|rows| - 1], fast[..|rows| - 1]);
    }
  }

  // ---------------------------------------------------------------------------------------------
  // The aggregates one by one.

  lemma {:induction false} FloatCountMeaning(ops: FloatOps, columns: seq<ColumnSchema>, t: DataType, c: nat, rows: seq<Row>, fast: seq<FastRow>)
    requires FloatType(t) && FitColumn(t, c, rows) && |rows| == |fast| && ShowColumn(c, rows, fast)
    ensures Folded(ops, CountColumn(c), rows) == Count(WrapI64(|Doubles(c, rows)|))
    ensures FastFolded(ops, columns, CountColumn(c), fast) == FastCount(WrapI64(|Doubles(c, rows)|))
    decreases |rows|
  {
    hide AddF64, FitColumn, ShowColumn, Fits, NumericView, WrapI64, DoubleOf;
    NothingYet(ops, t);
    if rows != [] {
      var k := |rows| - 1;
      LastFloatRow(t, c, rows, fast);
      FloatCountMeaning(ops, columns, t, c, rows[..k], fast[..k]);
      WrapAdds(|Doubles(c, rows[..k])|, 1);
    }
  }

  /** AVG does the same additions and counts the same rows on both paths. */
  lemma {:induction false} FloatAvgMeaning(ops: FloatOps, columns: seq<ColumnSchema>, t: DataType, c: nat, rows: seq<Row>, fast: seq<FastRow>)
    requires FloatType(t) && FitColumn(t, c, rows) && |rows| == |fast| && ShowColumn(c, rows, fast)
    ensures var ys := Doubles(c, rows);
      && FastFolded(ops, columns, AvgColumn(c), fast) == FastAvg(Added(ops, 0, ys), WrapI64(|ys|))
      && Folded(ops, AvgColumn(c), rows) == Avg(Added(ops, 0, ys), WrapI64(|ys|))
    decreases |rows|
  {
    hide AddF64, FitColumn, ShowColumn, Fits, NumericView, WrapI64, Widen, Added;
    NothingYet(ops, t);
    NothingAdded(ops, 0);
    if rows != [] {
      var k := |rows| - 1;
      LastFloatRow(t, c, rows, fast);
      FloatAvgMeaning(ops, columns, t, c, rows[..k], fast[..k]);
      var ys := Doubles(c, rows[..k]);
      WrapAdds(|ys|, 1);
      if IsFloat(rows[k](c)) {
        AddedAppend(ops, 0, ys, DoubleOf(rows[k](c)));
      }
    }
  }

  lemma NothingAdded(ops: FloatOps, start: f64)
    ensures Added(ops, start, []) == start
  {
  }

  /** On slots, SUM adds all values to 0. */
  lemma {:induction false} FastFloatSumMeaning(ops: FloatOps, columns: seq<ColumnSchema>, t: DataType, c: nat, rows: seq<Row>, fast: seq<FastRow>)
    requires FloatType(t) && FitColumn(t, c, rows) && |rows| == |fast| && ShowColumn(c, rows, fast)
    requires c < |columns| && columns[c].dataType == t
    ensures FastFolded(ops, columns, SumColumn(c), fast) == SumF64(Added(ops, 0, Doubles(c, rows)))
    decreases |rows|
  {
    hide AddF64, FitColumn, ShowColumn, Fits, NumericView, Widen, Added;
    NothingAdded(ops, 0);
    if rows != [] {
      var k := |rows| - 1;
      LastFloatRow(t, c, rows, fast);
      FastFloatSumMeaning(ops, columns, t, c, rows[..k], fast[..k]);
      if IsFloat(rows[k](c)) {
        AddedAppend(ops, 0, Doubles(c, rows[..k]), DoubleOf(rows[k](c)));
      }
    }
  }

  /** In the general path SUM starts from the first value as it is, and adds the others to it as binary64. */
  function GeneralFloatSum(ops: FloatOps, t: DataType, ys: seq<f64>): ColumnValue {
    if ys == [] then Null
    else if |ys| == 1 then FromSlot(ops, t, F64(ys[0]))
    else Float64(Added(ops, ys[0], ys[1..]))
  }

  lemma {:induction false} GeneralFloatSumMeaning(ops: FloatOps, t: DataType, c: nat, rows: seq<Row>, fast: seq<FastRow>)
    requires FloatType(t) && FitColumn(t, c, rows) && |rows| == |fast| && ShowColumn(c, rows, fast)
    ensures Folded(ops, SumColumn(c), rows) == Value(GeneralFloatSum(ops, t, Doubles(c, rows)))
    ensures FromColumn(t, Doubles(c, rows))
    decreases |rows|
  {
    hide AddF64, FitColumn, ShowColumn, Fits, NumericView, SumValues, Widen, GeneralFloatSum, FromColumn, DoubleOf;
    NoSum(ops, t);
    if rows != [] {
      var k := |rows| - 1;
      LastFloatRow(t, c, rows, fast);
      GeneralFloatSumMeaning(ops, t, c, rows[..k], fast[..k]);
      if !rows[k](c).Null? {
        FloatSumStep(ops, t, Doubles(c, rows[..k]), rows[k](c));
      }
    }
  }

  lemma NoSum(ops: FloatOps, t: DataType)
    ensures GeneralFloatSum(ops, t, []) == Null && FromColumn(t, [])
  {
  }

  /** Every double is a value of the column: over FLOAT4, a widened one. */
  ghost predicate FromColumn(t: DataType, ys: seq<f64>) {
    forall i :: 0 <= i < |ys| ==> exists v :: Fits(t, v) && IsFloat(v) && DoubleOf(v) == ys[i]
  }

  lemma FloatSumStep(ops: FloatOps, t: DataType, ys: seq<f64>, v: ColumnValue)
    requires FloatType(t) && Fits(t, v) && !v.Null? && FromColumn(t, ys)
    ensures IsFloat(v) && FromColumn(t, ys + [DoubleOf(v)])
    ensures var before, added := GeneralFloatSum(ops, t, ys), SumValues(ops, GeneralFloatSum(ops, t, ys), v);
      GeneralFloatSum(ops, t, ys + [DoubleOf(v)]) == if added.Some? then added.value else before
  {
    hide AddF64, Widen, Added, NarrowF64;
    FloatFromSlot(ops, t, v);
    if |ys| == 1 {
      var w :| Fits(t, w) && IsFloat(w) && DoubleOf(w) == ys[0];
      FloatFromSlot(ops, t, w);
      NothingAdded(ops, ys[0]);
      AddedAppend(ops, ys[0], [], DoubleOf(v));
      assert (ys + [DoubleOf(v)])[1..] == [] + [DoubleOf(v)];
    } else if |ys| > 1 {
      AddedAppend(ops, ys[0], ys[1..], DoubleOf(v));
      assert (ys + [DoubleOf(v)])[1..] == ys[1..] + [DoubleOf(v)];
    }
  }

  /** A float comes back out of its slot as it was. */
  lemma FloatFromSlot(ops: FloatOps, t: DataType, v: ColumnValue)
    requires FloatType(t) && Fits(t, v)
    ensures NumericView(v).Some? && FromSlot(ops, t, NumericView(v).value) == v
    ensures !v.Null? ==> IsFloat(v) && NumericView(v) == Some(F64(DoubleOf(v)))
  {
    hide Widen;
  }

  /** MIN and MAX: the extremum of the non-null values, NULL without any, the same on both paths. */
  lemma {:induction false} FloatExtremumMeaning(ops: FloatOps, columns: seq<ColumnSchema>, op: AggregateOp, t: DataType, c: nat,
      rows: seq<Row>, fast: seq<FastRow>)
    requires FloatType(t) && FitColumn(t, c, rows) && |rows| == |fast| && ShowColumn(c, rows, fast) && (op == MaxColumn(c) || op == MinColumn(c))
    ensures var s, f := Folded(ops, op, rows), FastFolded(ops, columns, op, fast);
      s.Value? && (if op.MaxColumn? then f.FastMax? else f.FastMin?) && FloatExtremum(t, op, Doubles(c, rows), s.value, f.best)
    decreases |rows|
  {
    hide AddF64, FitColumn, ShowColumn, Fits, NumericView, FloatExtremum, DoubleOf;
    NoExtremum(t, op);
    if rows != [] {
      var k := |rows| - 1;
      LastFloatRow(t, c, rows, fast);
      FloatExtremumMeaning(ops, columns, op, t, c, rows[..k], fast[..k]);
      FloatExtremumStep(ops, op, t, c, rows[k], fast[k], Folded(ops, op, rows[..k]), FastFolded(ops, columns, op, fast[..k]), Doubles(c, rows[..k]));
    }
  }

  /** The best value so far, as a value and as a slot. */
  predicate FloatExtremum(t: DataType, op: AggregateOp, ys: seq<f64>, best: ColumnValue, slot: FastNumeric) {
    && Fits(t, best) && NumericView(best) == Some(slot) && (best.Null? <==> ys == [])
    && (ys != [] ==> IsFloat(best) && if op.MaxColumn? then Greatest(ys, DoubleOf(best)) else Smallest(ys, DoubleOf(best)))
  }

  lemma NoExtremum(t: DataType, op: AggregateOp)
    ensures FloatExtremum(t, op, [], Null, NullSlot)
  {
  }

  lemma FloatExtremumStep(ops: FloatOps, op: AggregateOp, t: DataType, c: nat, row: Row, fast: FastRow, s: State, f: FastState, ys: seq<f64>)
    requires FloatType(t) && Fits(t, row(c)) && NumericView(row(c)) == Some(fast(c)) && (op == MaxColumn(c) || op == MinColumn(c))
    requires s.Value? && (if op.MaxColumn? then f.FastMax? else f.FastMin?) && FloatExtremum(t, op, ys, s.value, f.best)
    ensures row(c).Null? || IsFloat(row(c))
    ensures var ys', s', f' := if row(c).Null? then ys else ys + [DoubleOf(row(c))], Apply(ops, op, row, s), FastApply(ops, op, fast, f);
      s'.Value? && (if op.MaxColumn? then f'.FastMax? else f'.FastMin?) && FloatExtremum(t, op, ys', s'.value, f'.best)
  {
    hide AddF64, Fits, NumericView, Widen, Value64, Value32, PartialCmp, FastCmp;
    FloatView(t, row(c), fast(c));
    FloatView(t, s.value, f.best);
    if !row(c).Null? && !s.value.Null? {
      FloatsCompare(t, row(c), s.value);
    }
  }

  /** Two floats of one column compare by number, as values and in their slots. */
  lemma FloatsCompare(t: DataType, v: ColumnValue, w: ColumnValue)
    requires FloatType(t) && Fits(t, v) && Fits(t, w) && !v.Null? && !w.Null?
    ensures IsFloat(v) && IsFloat(w) && NumericView(v).Some? && NumericView(w).Some?
    ensures PartialCmp(v, w) == Some(CompareInt(Value64(DoubleOf(v)), Value64(DoubleOf(w))))
    ensures FastCmp(NumericView(v).value, NumericView(w).value) == PartialCmp(v, w)
  {
    hide Widen, Value64, Value32;
    SameOrderCmp(t, v, w);
  }

  // ---------------------------------------------------------------------------------------------
  // Agreement, exactly.

  /** Does an aggregate over these values of a float column come out the same on both paths? */
  predicate SameFloatResult(op: AggregateOp, t: DataType, ys: seq<f64>) {
    op.SumColumn? ==> |ys| >= (if t == Float64Type then 1 else 2) && exists i :: 0 <= i < |ys| && ys[i] != MINUS_ZERO
  }

  /** Starting from 0 or from the first value makes a difference only where all values are -0. */
  lemma {:induction false} StartsAgree(ops: FloatOps, ys: seq<f64>)
    requires ys != [] && NoNaN(ys)
    ensures if exists i :: 0 <= i < |ys| && ys[i] != MINUS_ZERO
      then Added(ops, 0, ys) == Added(ops, ys[0], ys[1..])
      else Added(ops, 0, ys) == 0 && Added(ops, ys[0], ys[1..]) == MINUS_ZERO
    decreases |ys|
  {
    var k := |ys| - 1;
    var front, y := ys[..k], ys[k];
    NothingAdded(ops, 0);
    NothingAdded(ops, ys[0]);
    assert ys == front + [y];
    AddedAppend(ops, 0, front, y);
    AddsZeros(ops, y);
    hide AddF64, Added;
    if k == 0 {
      assert front == [] && ys[1..] == [];
    } else {
      StartsAgree(ops, front);
      AddedAppend(ops, ys[0], front[1..], y);
      assert ys[1..] == front[1..] + [y] && front[0] == ys[0];
      assert forall i :: 0 <= i < k ==> front[i] == ys[i];
    }
  }

  lemma AddsZeros(ops: FloatOps, x: f64)
    requires !IsNaN64(x)
    ensures AddF64(ops, 0, x) == (if x == MINUS_ZERO then 0 else x) && AddF64(ops, MINUS_ZERO, x) == x
  {
  }

  lemma FloatSumsAgree(ops: FloatOps, t: DataType, ys: seq<f64>)
    requires FloatType(t) && NoNaN(ys)
    ensures GeneralFloatSum(ops, t, ys) == Float64(Added(ops, 0, ys)) <==> SameFloatResult(SumColumn(0), t, ys)
  {
    hide AddF64, Added;
    if ys != [] {
      StartsAgree(ops, ys);
      NothingAdded(ops, ys[0]);
      assert |ys| == 1 ==> ys[1..] == [];
    }
  }

  /** Over a float column COUNT, AVG, MIN and MAX always agree, and SUM exactly when SameFloatResult says so. */
  lemma FloatAgreesExactly(ops: FloatOps, columns: seq<ColumnSchema>, op: AggregateOp, rows: seq<Row>, fast: seq<FastRow>)
    requires !op.CountStar? && op.column < |columns| && FloatType(columns[op.column].dataType)
    requires |rows| == |fast| && FitColumn(columns[op.column].dataType, op.column, rows) && ShowColumn(op.column, rows, fast)
    ensures FastInitialState(columns, op).Some?
    ensures FastResult(ops, columns, op, fast) == AggregateResult(ops, op, rows)
      <==> SameFloatResult(op, columns[op.column].dataType, Doubles(op.column, rows))
  {
    hide Folded, FastFolded, FitColumn, ShowColumn, Added, Greatest, Smallest, IntToF64, AddF64, FromSlot, GeneralFloatSum, Doubles;
    var c := op.column;
    var t, ys := columns[c].dataType, Doubles(c, rows);
    match op {
      case CountColumn(_) => FloatCountMeaning(ops, columns, t, c, rows, fast);
      case SumColumn(_) =>
        FastFloatSumMeaning(ops, columns, t, c, rows, fast);
        GeneralFloatSumMeaning(ops, t, c, rows, fast);
        DoublesAreNumbers(t, c, rows, fast);
        FloatSumsAgree(ops, t, ys);
      case AvgColumn(_) => FloatAvgMeaning(ops, columns, t, c, rows, fast);
      case _ => FloatExtremumMeaning(ops, columns, op, t, c, rows, fast); FloatFromSlot(ops, t, AggregateResult(ops, op, rows));
    }
  }

  // ---------------------------------------------------------------------------------------------
  // Integer and float columns together.

  /** The aggregate's column is a fast numeric column whose values the slots show. */
  ghost predicate NumericInput(columns: seq<ColumnSchema>, op: AggregateOp, rows: seq<Row>, fast: seq<FastRow>) {
    && |rows| == |fast|
    && (!op.CountStar? ==>
        && op.column < |columns| && FastNumericType(columns[op.column].dataType)
        && FitColumn(columns[op.column].dataType, op.column, rows) && ShowColumn(op.column, rows, fast))
  }

  /** SameResult or SameFloatResult, for the aggregate's own column. */
  predicate SameOverColumn(columns: seq<ColumnSchema>, op: AggregateOp, rows: seq<Row>) {
    || op.CountStar?
    || (op.column < |columns| &&
        if FloatType(columns[op.column].dataType) then SameFloatResult(op, columns[op.column].dataType, Doubles(op.column, rows))
        else SameOverRows(columns, op, rows))
  }

  /** Over any fast numeric column, the two paths give the same result exactly when SameOverColumn says so. */
  lemma ColumnAgreesExactly(ops: FloatOps, columns: seq<ColumnSchema>, op: AggregateOp, rows: seq<Row>, fast: seq<FastRow>)
    requires NumericInput(columns, op, rows, fast)
    ensures FastInitialState(columns, op).Some?
    ensures FastResult(ops, columns, op, fast) == AggregateResult(ops, op, rows) <==> SameOverColumn(columns, op, rows)
  {
    hide FastResult, AggregateResult, SameFloatResult, SameResult, FitColumn, ShowColumn;
    if !op.CountStar? && FloatType(columns[op.column].dataType) {
      FloatAgreesExactly(ops, columns, op, rows, fast);
    } else {
      AggregateAgreesExactly(ops, columns, op, rows, fast);
    }
  }

  /** Any fast numeric value comes back out of its slot as it was, so no two share a slot. */
  lemma NumberFromSlot(ops: FloatOps, t: DataType, v: ColumnValue)
    requires FastNumericType(t) && Fits(t, v)
    ensures NumericView(v).Some? && FromSlot(ops, t, NumericView(v).value) == v
  {
    hide NumericView, FromSlot;
    if FloatType(t) {
      FloatFromSlot(ops, t, v);
    } else {
      FromSlotOfView(ops, t, v);
    }
  }
}
