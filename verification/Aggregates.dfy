/** Aggregate states on column values and on numeric slots, and what each of them computes. */
module Aggregates {
  import opened Basics
  import opened Bytes
  import opened Floats
  import opened FloatRounding
  import opened Values
  import opened TupleCodec
  import opened FastNumericDecode
  import opened Predicates
  import opened FastPredicates
  import opened SlotComparison

  datatype AggregateOp =
    | CountStar
    | CountColumn(column: nat)
    | MaxColumn(column: nat)
    | MinColumn(column: nat)
    | SumColumn(column: nat)
    | AvgColumn(column: nat)

  /** binary64 addition and division, and the conversion to binary32. */
  datatype FloatArithmetic = FloatArithmetic(add: (f64, f64) -> f64, div: (f64, f64) -> f64, narrow: f64 -> f32)

  const MINUS_ZERO: f64 := 0x8000_0000_0000_0000

  /** All that is known of them: adding to a zero is exact, 0 + -0 being 0, and narrowing undoes widening. */
  ghost predicate Ieee(ops: FloatArithmetic) {
    && (forall x: f64 :: !IsNaN64(x) ==> ops.add(0, x) == (if x == MINUS_ZERO then 0 else x) && ops.add(MINUS_ZERO, x) == x)
    && (forall x: f32 :: !IsNaN32(x) ==> ops.narrow(Widen(x)) == x)
  }

  type FloatOps = ops: FloatArithmetic | Ieee(ops) ghost witness (IeeeExists(); ExactOnZeros())

  ghost function ExactOnZeros(): FloatArithmetic {
    FloatArithmetic((a, b) => if a == 0 && b == MINUS_ZERO then 0 else b, (a, _) => a, z => Narrow(z))
  }

  lemma IeeeExists()
    ensures Ieee(ExactOnZeros())
  {
    hide Narrow;
    forall x: f32 | !IsNaN32(x) ensures Narrow(Widen(x)) == x {
      NarrowWidened(x);
    }
  }

  function AddF64(ops: FloatOps, a: f64, b: f64): f64 {
    ops.add(a, b)
  }

  function DivF64(ops: FloatOps, a: f64, b: f64): f64 {
    ops.div(a, b)
  }

  function NarrowF64(ops: FloatOps, b: f64): f32 {
    ops.narrow(b)
  }

  /** i64 arithmetic wraps. */
  function WrapI64(n: int): i64 {
    (n + 0x8000_0000_0000_0000) % 0x1_0000_0000_0000_0000 - 0x8000_0000_0000_0000
  }

  /** A cast to a narrower signed integer keeps the low bits. */
  function WrapI32(n: int): i32 {
    (n + 0x8000_0000) % 0x1_0000_0000 - 0x8000_0000
  }

  function WrapI16(n: int): i16 {
    (n + 0x8000) % 0x1_0000 - 0x8000
  }

  lemma WrapAdds(a: int, b: int)
    ensures WrapI64(WrapI64(a) + b) == WrapI64(a + b)
  {
    var m := 0x1_0000_0000_0000_0000;
    var q := (a + 0x8000_0000_0000_0000) / m;
    assert WrapI64(a) + b + 0x8000_0000_0000_0000 == a + b + 0x8000_0000_0000_0000 - q * m;
    ModShift(a + b + 0x8000_0000_0000_0000, q);
  }

  lemma ModShift(n: int, q: int)
    ensures (n - q * 0x1_0000_0000_0000_0000) % 0x1_0000_0000_0000_0000 == n % 0x1_0000_0000_0000_0000
  {
  }

  // ---------------------------------------------------------------------------------------------
  // The general states: `KvAggregateState`.

  datatype State = Count(count: i64) | Value(value: ColumnValue) | Avg(sum: f64, rows: i64)

  function InitialState(op: AggregateOp): State {
    match op
    case CountStar => Count(0)
    case CountColumn(_) => Count(0)
    case AvgColumn(_) => Avg(0, 0)
    case _ => Value(Null)
  }

  function SumFloats(ops: FloatOps, a: f64, b: f64): ColumnValue {
    Float64(AddF64(ops, a, b))
  }

  /** `sum_values`: there is no arm for INT2. */
  function SumValues(ops: FloatOps, a: ColumnValue, b: ColumnValue): Option<ColumnValue> {
    match (a, b)
    case (Null, _) => Some(b)
    case (Int32(x), Int32(y)) => Some(Int64(x + y))
    case (Int32(x), Int64(y)) => Some(Int64(WrapI64(x + y)))
    case (Int64(x), Int32(y)) => Some(Int64(WrapI64(x + y)))
    case (Int64(x), Int64(y)) => Some(Int64(WrapI64(x + y)))
    case (Float32(x), Float32(y)) => Some(SumFloats(ops, Widen(x), Widen(y)))
    case (Float32(x), Float64(y)) => Some(SumFloats(ops, Widen(x), y))
    case (Float64(x), Float32(y)) => Some(SumFloats(ops, x, Widen(y)))
    case (Float64(x), Float64(y)) => Some(SumFloats(ops, x, y))
    case _ => None
  }

  /** `numeric_as_f64`: there is no arm for INT2. */
  function NumericAsF64(v: ColumnValue): Option<f64> {
    match v
    case Int32(x) => Some(IntToF64(x))
    case Int64(x) => Some(IntToF64(x))
    case Float32(x) => Some(Widen(x))
    case Float64(x) => Some(x)
    case _ => None
  }

  /** One aggregate's step on one row: `kv_apply_aggregate` and `apply_projected_aggregate`. */
  function Apply(ops: FloatOps, op: AggregateOp, row: Row, s: State): State {
    match op
    case CountStar => if s.Count? then Count(WrapI64(s.count + 1)) else s
    case CountColumn(c) => if s.Count? && !row(c).Null? then Count(WrapI64(s.count + 1)) else s
    case MaxColumn(c) =>
      if s.Value? && !row(c).Null? && (s.value.Null? || PartialCmp(row(c), s.value) == Some(Greater)) then Value(row(c)) else s
    case MinColumn(c) =>
      if s.Value? && !row(c).Null? && (s.value.Null? || PartialCmp(row(c), s.value) == Some(Less)) then Value(row(c)) else s
    case SumColumn(c) =>
      if s.Value? && !row(c).Null? && SumValues(ops, s.value, row(c)).Some? then Value(SumValues(ops, s.value, row(c)).value) else s
    case AvgColumn(c) =>
      if s.Avg? && NumericAsF64(row(c)).Some? then Avg(AddF64(ops, s.sum, NumericAsF64(row(c)).value), WrapI64(s.rows + 1)) else s
  }

  /** `kv_finish_aggregate_state`. */
  function Finish(ops: FloatOps, s: State): ColumnValue {
    match s
    case Count(n) => Int64(n)
    case Value(v) => v
    case Avg(sum, rows) => if rows == 0 then Null else Float64(DivF64(ops, sum, IntToF64(rows)))
  }

  /** The state after some rows, in order. */
  function Folded(ops: FloatOps, op: AggregateOp, rows: seq<Row>): State {
    if rows == [] then InitialState(op) else Apply(ops, op, rows[|rows| - 1], Folded(ops, op, rows[..|rows| - 1]))
  }

  function AggregateResult(ops: FloatOps, op: AggregateOp, rows: seq<Row>): ColumnValue {
    Finish(ops, Folded(ops, op, rows))
  }

  // ---------------------------------------------------------------------------------------------
  // The states on slots: `FastAggregateState`.

  datatype FastState =
    | FastCount(count: i64)
    | SumI64(sum: i64)
    | SumF64(fsum: f64)
    | FastMax(best: FastNumeric)
    | FastMin(best: FastNumeric)
    | FastAvg(total: f64, rows: i64)

  /** The value of each column of a row as a number in a slot. */
  type FastRow = nat -> FastNumeric

  /** `fast_aggregate_initial_state`. */
  function FastInitialState(columns: seq<ColumnSchema>, op: AggregateOp): Option<FastState> {
    match op
    case CountStar => Some(FastCount(0))
    case CountColumn(_) => Some(FastCount(0))
    case SumColumn(c) =>
      if c >= |columns| then None
      else if columns[c].dataType == Float32Type || columns[c].dataType == Float64Type then Some(SumF64(0))
      else Some(SumI64(0))
    case MaxColumn(_) => Some(FastMax(NullSlot))
    case MinColumn(_) => Some(FastMin(NullSlot))
    case AvgColumn(_) => Some(FastAvg(0, 0))
  }

  /** One aggregate's step on one row's slots: `apply_fast_aggregates`. */
  function FastApply(ops: FloatOps, op: AggregateOp, row: FastRow, s: FastState): FastState {
    match op
    case CountStar => if s.FastCount? then FastCount(WrapI64(s.count + 1)) else s
    case CountColumn(c) => if s.FastCount? && !row(c).NullSlot? then FastCount(WrapI64(s.count + 1)) else s
    case SumColumn(c) =>
      if s.SumI64? && row(c).I64? then SumI64(WrapI64(s.sum + row(c).int64))
      else if s.SumF64? && !row(c).NullSlot? then SumF64(AddF64(ops, s.fsum, AsF64(row(c)).value))
      else s
    case AvgColumn(c) =>
      if s.FastAvg? && !row(c).NullSlot? then FastAvg(AddF64(ops, s.total, AsF64(row(c)).value), WrapI64(s.rows + 1)) else s
    case MaxColumn(c) =>
      if s.FastMax? && !row(c).NullSlot? && (s.best.NullSlot? || FastCmp(row(c), s.best) == Some(Greater)) then FastMax(row(c)) else s
    case MinColumn(c) =>
      if s.FastMin? && !row(c).NullSlot? && (s.best.NullSlot? || FastCmp(row(c), s.best) == Some(Less)) then FastMin(row(c)) else s
  }

  /** `fast_numeric_to_column_value`. */
  function FromSlot(ops: FloatOps, t: DataType, x: FastNumeric): ColumnValue {
    match x
    case NullSlot => Null
    case I64(i) => if t == Int16Type then Int16(WrapI16(i)) else if t == Int32Type then Int32(WrapI32(i)) else Int64(i)
    case F64(b) => if t == Float32Type then Float32(NarrowF64(ops, b)) else Float64(b)
  }

  /** `finish_fast_aggregates`. */
  function FastFinish(ops: FloatOps, columns: seq<ColumnSchema>, op: AggregateOp, s: FastState): ColumnValue {
    match s
    case FastCount(n) => Int64(n)
    case SumI64(n) => Int64(n)
    case SumF64(b) => Float64(b)
    case FastAvg(total, rows) => if rows == 0 then Null else Float64(DivF64(ops, total, IntToF64(rows)))
    case FastMax(x) => if op.MaxColumn? && op.column < |columns| then FromSlot(ops, columns[op.column].dataType, x) else Null
    case FastMin(x) => if op.MinColumn? && op.column < |columns| then FromSlot(ops, columns[op.column].dataType, x) else Null
  }

  function FastFolded(ops: FloatOps, columns: seq<ColumnSchema>, op: AggregateOp, rows: seq<FastRow>): FastState
    requires FastInitialState(columns, op).Some?
  {
    if rows == [] then FastInitialState(columns, op).value
    else FastApply(ops, op, rows[|rows| - 1], FastFolded(ops, columns, op, rows[..|rows| - 1]))
  }

  function FastResult(ops: FloatOps, columns: seq<ColumnSchema>, op: AggregateOp, rows: seq<FastRow>): ColumnValue
    requires FastInitialState(columns, op).Some?
  {
    FastFinish(ops, columns, op, FastFolded(ops, columns, op, rows))
  }

  // ---------------------------------------------------------------------------------------------
  // What an aggregate over an integer column is: the reference.

  /** The non-null values of an integer column, in row order. */
  function Integers(c: nat, rows: seq<Row>): seq<i64> {
    if rows == [] then []
    else
      var last, before := rows[|rows| - 1](c), Integers(c, rows[..|rows| - 1]);
      if IsInt(last) then before + [I64Of(last)] else before
  }

  function I64Of(v: ColumnValue): i64
    requires IsInt(v)
  {
    match v
    case Int16(x) => x
    case Int32(x) => x
    case Int64(x) => x
  }

  function Sum(xs: seq<i64>): int {
    if xs == [] then 0 else Sum(xs[..|xs| - 1]) + xs[|xs| - 1]
  }

  predicate IsMax(xs: seq<i64>, m: int) {
    m in xs && forall x :: x in xs ==> x <= m
  }

  predicate IsMin(xs: seq<i64>, m: int) {
    m in xs && forall x :: x in xs ==> m <= x
  }

  /** binary64 additions in row order, starting from zero. */
  function FloatSum(ops: FloatOps, xs: seq<i64>): f64
  {
    if xs == [] then 0 else AddF64(ops, FloatSum(ops, xs[..|xs| - 1]), IntToF64(xs[|xs| - 1]))
  }

  predicate FitColumn(t: DataType, c: nat, rows: seq<Row>) {
    forall i :: 0 <= i < |rows| ==> Fits(t, rows[i](c))
  }

  /** The slots of a row show the row's value in column `c`. */
  predicate ShowColumn(c: nat, rows: seq<Row>, fast: seq<FastRow>)
    requires |rows| == |fast|
  {
    forall i :: 0 <= i < |rows| ==> NumericView(rows[i](c)) == Some(fast[i](c))
  }

  lemma NothingYet(ops: FloatOps, t: DataType)
    ensures WrapI64(0) == 0 && Sum([]) == 0 && FloatSum(ops, []) == 0 && Fits(t, Null) && NumericView(Null) == Some(NullSlot)
  {
  }

  lemma IntegerView(t: DataType, v: ColumnValue, x: FastNumeric)
    requires IntegerType(t) && Fits(t, v) && NumericView(v) == Some(x)
    ensures (v.Null? && x.NullSlot?) || (IsInt(v) && x == I64(I64Of(v)) && InType(t, I64Of(v)))
  {
  }

  /** The last row and the rows before it. */
  lemma LastRow(t: DataType, c: nat, rows: seq<Row>, fast: seq<FastRow>)
    requires IntegerType(t) && FitColumn(t, c, rows) && |rows| == |fast| && ShowColumn(c, rows, fast) && rows != []
    ensures var k := |rows| - 1;
      var v, x := rows[k](c), fast[k](c);
      && FitColumn(t, c, rows[..k]) && ShowColumn(c, rows[..k], fast[..k])
      && Fits(t, v) && NumericView(v) == Some(x)
      && ((v.Null? && x.NullSlot?) || (IsInt(v) && x == I64(I64Of(v)) && InType(t, I64Of(v))))
  {
    hide Fits, NumericView, InType;
    assert Fits(t, rows[|rows| - 1](c));
    IntegerView(t, rows[|rows| - 1](c), fast[|rows| - 1](c));
  }

  /** COUNT(*) counts the rows, on both paths. */
  lemma {:induction false} CountStarMeaning(ops: FloatOps, columns: seq<ColumnSchema>, rows: seq<Row>, fast: seq<FastRow>)
    requires |rows| == |fast|
    ensures Folded(ops, CountStar, rows) == Count(WrapI64(|rows|))
    ensures FastFolded(ops, columns, CountStar, fast) == FastCount(WrapI64(|rows|))
    decreases |rows|
  {
    hide AddF64, WrapI64;
    NothingYet(ops, Int64Type);
    if rows != [] {
      var k := |rows| - 1;
      CountStarMeaning(ops, columns, rows[..k], fast[..k]);
      WrapAdds(k, 1);
    }
  }

  /** COUNT(column) counts the non-null values, on both paths. */
  lemma {:induction false} CountMeaning(ops: FloatOps, columns: seq<ColumnSchema>, t: DataType, c: nat,
      rows: seq<Row>, fast: seq<FastRow>)
    requires IntegerType(t) && FitColumn(t, c, rows) && |rows| == |fast| && ShowColumn(c, rows, fast)
    ensures Folded(ops, CountColumn(c), rows) == Count(WrapI64(|Integers(c, rows)|))
    ensures FastFolded(ops, columns, CountColumn(c), fast) == FastCount(WrapI64(|Integers(c, rows)|))
    decreases |rows|
  {
    hide AddF64, FitColumn, ShowColumn, Fits, NumericView, WrapI64;
    NothingYet(ops, t);
    if rows != [] {
      var k := |rows| - 1;
      LastRow(t, c, rows, fast);
      CountMeaning(ops, columns, t, c, rows[..k], fast[..k]);
      WrapAdds(|Integers(c, rows[..k])|, 1);
    }
  }

  /** MIN and MAX: the extremum of the non-null values, NULL without any, the same on both paths. */
  lemma {:induction false} ExtremumMeaning(ops: FloatOps, columns: seq<ColumnSchema>, op: AggregateOp, t: DataType, c: nat,
      rows: seq<Row>, fast: seq<FastRow>)
    requires IntegerType(t) && FitColumn(t, c, rows) && |rows| == |fast| && ShowColumn(c, rows, fast) && (op == MaxColumn(c) || op == MinColumn(c))
    ensures var xs, s, f := Integers(c, rows), Folded(ops, op, rows), FastFolded(ops, columns, op, fast);
      && s.Value? && (s.value.Null? <==> xs == [])
      && (if op.MaxColumn? then f.FastMax? else f.FastMin?)
      && Fits(t, s.value) && NumericView(s.value) == Some(f.best)
      && (xs != [] ==> if op.MaxColumn? then IsMax(xs, I64Of(s.value)) else IsMin(xs, I64Of(s.value)))
    decreases |rows|
  {
    hide AddF64, FitColumn, ShowColumn, Fits, NumericView, IsMax, IsMin;
    NothingYet(ops, t);
    if rows != [] {
      var k := |rows| - 1;
      LastRow(t, c, rows, fast);
      ExtremumMeaning(ops, columns, op, t, c, rows[..k], fast[..k]);
      ExtremumStep(ops, op, t, c, rows[k], fast[k], Folded(ops, op, rows[..k]), FastFolded(ops, columns, op, fast[..k]),
        Integers(c, rows[..k]));
    }
  }

  lemma ExtremumStep(ops: FloatOps, op: AggregateOp, t: DataType, c: nat, row: Row, fast: FastRow, s: State, f: FastState, xs: seq<i64>)
    requires IntegerType(t) && Fits(t, row(c)) && NumericView(row(c)) == Some(fast(c)) && (op == MaxColumn(c) || op == MinColumn(c))
    requires s.Value? && (s.value.Null? <==> xs == []) && Fits(t, s.value)
    requires (if op.MaxColumn? then f.FastMax? else f.FastMin?) && NumericView(s.value) == Some(f.best)
    requires xs != [] ==> if op.MaxColumn? then IsMax(xs, I64Of(s.value)) else IsMin(xs, I64Of(s.value))
    ensures var xs', s', f' := if row(c).Null? then xs else xs + [I64Of(row(c))], Apply(ops, op, row, s), FastApply(ops, op, fast, f);
      && s'.Value? && (s'.value.Null? <==> xs' == [])
      && (if op.MaxColumn? then f'.FastMax? else f'.FastMin?)
      && Fits(t, s'.value) && NumericView(s'.value) == Some(f'.best)
      && (xs' != [] ==> if op.MaxColumn? then IsMax(xs', I64Of(s'.value)) else IsMin(xs', I64Of(s'.value)))
  {
  }

  lemma SumAppend(xs: seq<i64>, x: i64)
    ensures Sum(xs + [x]) == Sum(xs) + x
  {
    assert (xs + [x])[..|xs|] == xs;
  }

  /** On slots, SUM is the wrapped sum of the non-null values, zero without any. */
  lemma {:induction false} FastSumMeaning(ops: FloatOps, columns: seq<ColumnSchema>, t: DataType, c: nat, rows: seq<Row>, fast: seq<FastRow>)
    requires IntegerType(t) && FitColumn(t, c, rows) && |rows| == |fast| && ShowColumn(c, rows, fast)
    requires c < |columns| && columns[c].dataType == t
    ensures FastFolded(ops, columns, SumColumn(c), fast) == SumI64(WrapI64(Sum(Integers(c, rows))))
    decreases |rows|
  {
    hide AddF64, FitColumn, ShowColumn, Fits, NumericView, WrapI64, FastApply, Sum, InType;
    NothingYet(ops, t);
    if rows != [] {
      var k := |rows| - 1;
      LastRow(t, c, rows, fast);
      FastSumMeaning(ops, columns, t, c, rows[..k], fast[..k]);
      FastSumStep(ops, c, fast[k], Integers(c, rows[..k]));
    }
  }

  lemma FastSumStep(ops: FloatOps, c: nat, fast: FastRow, xs: seq<i64>)
    requires !fast(c).F64?
    ensures FastApply(ops, SumColumn(c), fast, SumI64(WrapI64(Sum(xs)))) ==
      SumI64(WrapI64(Sum(if fast(c).NullSlot? then xs else xs + [fast(c).int64])))
  {
    hide AddF64, WrapI64, Sum;
    if fast(c).I64? {
      WrapAdds(Sum(xs), fast(c).int64);
      SumAppend(xs, fast(c).int64);
    }
  }

  /** In the general path SUM starts from the first value as it is, and INT2 values never add up. */
  function GeneralSum(ops: FloatOps, t: DataType, xs: seq<i64>): ColumnValue {
    if xs == [] then Null
    else if |xs| == 1 || t == Int16Type then FromSlot(ops, t, I64(xs[0]))
    else Int64(WrapI64(Sum(xs)))
  }

  predicate AllInType(t: DataType, xs: seq<i64>) {
    forall i :: 0 <= i < |xs| ==> InType(t, xs[i])
  }

  lemma {:induction false} GeneralSumMeaning(ops: FloatOps, t: DataType, c: nat, rows: seq<Row>, fast: seq<FastRow>)
    requires IntegerType(t) && FitColumn(t, c, rows) && |rows| == |fast| && ShowColumn(c, rows, fast)
    ensures Folded(ops, SumColumn(c), rows) == Value(GeneralSum(ops, t, Integers(c, rows)))
    ensures AllInType(t, Integers(c, rows))
    decreases |rows|
  {
    hide AddF64, FitColumn, ShowColumn, Fits, NumericView, SumValues, InType, Sum;
    if rows != [] {
      hide GeneralSum;
      var k := |rows| - 1;
      LastRow(t, c, rows, fast);
      GeneralSumMeaning(ops, t, c, rows[..k], fast[..k]);
      if !rows[k](c).Null? {
        GeneralSumStep(ops, t, Integers(c, rows[..k]), rows[k](c));
      }
    }
  }

  lemma GeneralSumStep(ops: FloatOps, t: DataType, xs: seq<i64>, v: ColumnValue)
    requires IntegerType(t) && Fits(t, v) && !v.Null? && AllInType(t, xs)
    ensures var before, added := GeneralSum(ops, t, xs), SumValues(ops, GeneralSum(ops, t, xs), v);
      GeneralSum(ops, t, xs + [I64Of(v)]) == if added.Some? then added.value else before
  {
    hide Sum, WrapI64;
    SumAppend(xs, I64Of(v));
    if xs == [] {
      NarrowInType(I64Of(v));
    } else if |xs| == 1 {
      SumOne(xs);
      NarrowInType(xs[0]);
      if t != Int16Type { WrapInType(xs[0] + I64Of(v)); }
    } else {
      WrapAdds(Sum(xs), I64Of(v));
    }
  }

  lemma SumOne(xs: seq<i64>)
    requires |xs| == 1
    ensures Sum(xs) == xs[0]
  {
    assert xs[..0] == [];
  }

  lemma NarrowInType(n: i64)
    ensures InType(Int16Type, n) ==> WrapI16(n) == n
    ensures InType(Int32Type, n) ==> WrapI32(n) == n
  {
  }

  lemma WrapInType(n: int)
    ensures InType(Int64Type, n) ==> WrapI64(n) == n
  {
  }

  /** AVG: the same additions and the same count on both paths, except that the general one skips INT2. */
  lemma {:induction false} AvgMeaning(ops: FloatOps, columns: seq<ColumnSchema>, t: DataType, c: nat, rows: seq<Row>, fast: seq<FastRow>)
    requires IntegerType(t) && FitColumn(t, c, rows) && |rows| == |fast| && ShowColumn(c, rows, fast)
    ensures var xs := Integers(c, rows);
      && FastFolded(ops, columns, AvgColumn(c), fast) == FastAvg(FloatSum(ops, xs), WrapI64(|xs|))
      && Folded(ops, AvgColumn(c), rows) == if t == Int16Type then Avg(0, 0) else Avg(FloatSum(ops, xs), WrapI64(|xs|))
    decreases |rows|
  {
    hide AddF64, FitColumn, ShowColumn, Fits, NumericView, WrapI64, Apply, FastApply, FloatSum;
    NothingYet(ops, t);
    if rows != [] {
      var k := |rows| - 1;
      LastRow(t, c, rows, fast);
      AvgStep(ops, t, c, rows[k], fast[k], Integers(c, rows[..k]));
      AvgMeaning(ops, columns, t, c, rows[..k], fast[..k]);
    }
  }

  lemma AvgStep(ops: FloatOps, t: DataType, c: nat, row: Row, fast: FastRow, xs: seq<i64>)
    requires IntegerType(t) && Fits(t, row(c)) && NumericView(row(c)) == Some(fast(c))
    ensures var ys := if IsInt(row(c)) then xs + [I64Of(row(c))] else xs;
      && FastApply(ops, AvgColumn(c), fast, FastAvg(FloatSum(ops, xs), WrapI64(|xs|))) == FastAvg(FloatSum(ops, ys), WrapI64(|ys|))
      && Apply(ops, AvgColumn(c), row, if t == Int16Type then Avg(0, 0) else Avg(FloatSum(ops, xs), WrapI64(|xs|)))
        == if t == Int16Type then Avg(0, 0) else Avg(FloatSum(ops, ys), WrapI64(|ys|))
  {
    hide AddF64, WrapI64, IntToF64, NumericAsF64, Fits, NumericView, InType;
    AvgVariant(t, row(c));
    IntegerView(t, row(c), fast(c));
    WrapAdds(|xs|, 1);
    if IsInt(row(c)) {
      assert (xs + [I64Of(row(c))])[..|xs|] == xs;
    }
  }

  lemma AvgVariant(t: DataType, v: ColumnValue)
    requires IntegerType(t) && Fits(t, v)
    ensures NumericAsF64(v) == if v.Null? || t == Int16Type then None else Some(IntToF64(I64Of(v)))
  {
  }

  // ---------------------------------------------------------------------------------------------
  // Agreement, exactly.

  /** Does an aggregate over these non-null values come out the same on both paths? */
  predicate SameResult(op: AggregateOp, t: DataType, xs: seq<i64>) {
    match op
    case SumColumn(_) => if t == Int64Type then |xs| >= 1 else t == Int32Type && |xs| >= 2
    case AvgColumn(_) => t != Int16Type || WrapI64(|xs|) == 0
    case _ => true
  }

  lemma SumsAgree(ops: FloatOps, t: DataType, xs: seq<i64>)
    requires IntegerType(t) && AllInType(t, xs)
    ensures GeneralSum(ops, t, xs) == Int64(WrapI64(Sum(xs))) <==> SameResult(SumColumn(0), t, xs)
  {
    hide Sum, WrapI64;
    if |xs| == 1 {
      SumOne(xs);
      WrapInType(xs[0]);
    }
  }

  lemma FromSlotOfView(ops: FloatOps, t: DataType, v: ColumnValue)
    requires IntegerType(t) && Fits(t, v)
    ensures NumericView(v).Some? && FromSlot(ops, t, NumericView(v).value) == v
  {
  }

  /** The aggregate's column is an integer column whose values the slots show. */
  ghost predicate IntegerInput(columns: seq<ColumnSchema>, op: AggregateOp, rows: seq<Row>, fast: seq<FastRow>) {
    && |rows| == |fast|
    && (!op.CountStar? ==>
        && op.column < |columns| && IntegerType(columns[op.column].dataType)
        && FitColumn(columns[op.column].dataType, op.column, rows) && ShowColumn(op.column, rows, fast))
  }

  /** SameResult, for the aggregate's own column. */
  predicate SameOverRows(columns: seq<ColumnSchema>, op: AggregateOp, rows: seq<Row>) {
    op.CountStar? || (op.column < |columns| && SameResult(op, columns[op.column].dataType, Integers(op.column, rows)))
  }

  /**
   * Over an integer column the two paths give the same COUNT, MIN and MAX always, and the same SUM and AVG
   * exactly when SameResult says so.
   */
  lemma AggregateAgreesExactly(ops: FloatOps, columns: seq<ColumnSchema>, op: AggregateOp, rows: seq<Row>, fast: seq<FastRow>)
    requires IntegerInput(columns, op, rows, fast)
    ensures FastInitialState(columns, op).Some?
    ensures FastResult(ops, columns, op, fast) == AggregateResult(ops, op, rows) <==> SameOverRows(columns, op, rows)
  {
    hide Folded, FastFolded, FitColumn, ShowColumn, FloatSum, Sum, IsMax, IsMin, IntToF64, AddF64;
    if op.CountStar? {
      CountStarMeaning(ops, columns, rows, fast);
    } else {
      var c := op.column;
      var t := columns[c].dataType;
      match op {
        case CountColumn(_) => CountMeaning(ops, columns, t, c, rows, fast);
        case SumColumn(_) => FastSumMeaning(ops, columns, t, c, rows, fast); GeneralSumMeaning(ops, t, c, rows, fast);
          SumsAgree(ops, t, Integers(c, rows));
        case AvgColumn(_) => AvgMeaning(ops, columns, t, c, rows, fast);
        case _ => ExtremumMeaning(ops, columns, op, t, c, rows, fast); FromSlotOfView(ops, t, AggregateResult(ops, op, rows));
      }
    }
  }
}
