/** Comparing a column with a literal on numeric slots and on column values, and exactly where the two agree. */
module SlotComparison {
  import opened Basics
  import opened Bytes
  import opened Floats
  import opened FloatRounding
  import opened Values
  import opened TupleCodec
  import opened FastNumericDecode
  import opened Predicates

  // ---------------------------------------------------------------------------------------------
  // Numbers in slots.

  /** `fast_numeric_as_f64`. */
  function AsF64(x: FastNumeric): Option<f64> {
    match x
    case NullSlot => None
    case I64(i) => Some(IntToF64(i))
    case F64(b) => Some(b)
  }

  /** `fast_numeric_cmp`: two integers exactly, anything else as binary64, NULL not at all. */
  function FastCmp(a: FastNumeric, b: FastNumeric): Option<Ordering> {
    if a.NullSlot? || b.NullSlot? then None
    else if a.I64? && b.I64? then Some(CompareInt(a.int64, b.int64))
    else CmpF64(AsF64(a).value, AsF64(b).value)
  }

  /** `compare_fast_numeric_values`. */
  predicate FastCompare(a: FastNumeric, op: KvCompareOp, b: FastNumeric) {
    Accepts(op, FastCmp(a, b))
  }

  /** `parse::<f64>` on NUMERIC literals, which only the top-N path converts. */
  type ParseF64 = text -> Option<f64>

  /** `column_value_to_fast_numeric`. */
  function LiteralView(v: ColumnValue, parse: ParseF64): Option<FastNumeric> {
    if v.Numeric? then
      match parse(v.str)
      case None => None
      case Some(b) => Some(F64(b))
    else NumericView(v)
  }

  // ---------------------------------------------------------------------------------------------
  // Columns.

  /** What a column of type `t` stores: NULL, or its own variant, and no NaN. */
  predicate Fits(t: DataType, v: ColumnValue) {
    || v.Null?
    || (t == Float32Type && v.Float32? && !IsNaN32(v.bits32))
    || (t == Float64Type && v.Float64? && !IsNaN64(v.bits64))
    || OwnVariant(t, v)
  }

  predicate IsInt(v: ColumnValue) {
    v.Int16? || v.Int32? || v.Int64?
  }

  predicate IsFloat(v: ColumnValue) {
    v.Float32? || v.Float64?
  }

  function IntOfType(t: DataType, n: int): ColumnValue
    requires IntegerType(t) && InType(t, n)
  {
    if t == Int16Type then Int16(n) else if t == Int32Type then Int32(n) else Int64(n)
  }

  predicate InType(t: DataType, n: int) {
    if t == Int16Type then -0x8000 <= n < 0x8000
    else if t == Int32Type then -0x8000_0000 <= n < 0x8000_0000
    else -0x8000_0000_0000_0000 <= n < 0x8000_0000_0000_0000
  }

  /** The integer of the column's range that is nearest to `n`. */
  function Clamp(t: DataType, n: int): (m: i64)
    ensures InType(t, m) && (InType(t, n) ==> m == n)
  {
    var half := if t == Int16Type then 0x8000 else if t == Int32Type then 0x8000_0000 else 0x8000_0000_0000_0000;
    if n < 0 - half then 0 - half else if n >= half then half - 1 else n
  }

  /** The value of the column farthest in the direction that the operator asks for, infinities included. */
  function Farthest(t: DataType, op: KvCompareOp): (v: ColumnValue)
    requires FastNumericType(t)
    ensures Fits(t, v) && !v.Null?
  {
    var up := op == Gt || op == GtEq;
    if t == Float32Type then Float32(if up then INF32 else SIGN32 + INF32)
    else if t == Float64Type then Float64(if up then INF64 else SIGN64 + INF64)
    else IntOfType(t, Clamp(t, if up then 0x8000_0000_0000_0000 else -0x8000_0000_0000_0001))
  }

  lemma ViewOfFitting(t: DataType, v: ColumnValue)
    requires FastNumericType(t) && Fits(t, v)
    ensures NumericView(v).Some?
  {
  }

  // ---------------------------------------------------------------------------------------------
  // The condition on a literal.

  /** The literal is of the variant that the column stores. */
  predicate OwnKind(t: DataType, v: ColumnValue) {
    (t == Float32Type && v.Float32?) || (t == Float64Type && v.Float64?) || OwnVariant(t, v)
  }

  /**
   * The column can hold a number equal to the slot's: an integer of its range, the integer below a float if
   * that rounds to the float, any double, or a double that is a float.
   */
  predicate Reaches(t: DataType, b: FastNumeric) {
    match b
    case NullSlot => false
    case I64(n) => if IntegerType(t) then InType(t, n) else t == Float64Type || NarrowsExactly(IntToF64(n))
    case F64(z) =>
      !IsNaN64(z) &&
      if IntegerType(t) then Value64(IntToF64(Clamp(t, Value64(z) / UNIT64))) == Value64(z)
      else t == Float64Type || NarrowsExactly(z)
  }

  /** Both paths order the column's values and the literal by the same comparison. */
  predicate SameOrder(t: DataType, v: ColumnValue) {
    || (IntegerType(t) && IsInt(v))
    || ((t == Float32Type || t == Float64Type) && IsFloat(v))
    || ((t == Int16Type || t == Int64Type) && v.Float64?)
    || (t == Float64Type && (v.Int16? || v.Int64?))
    || (t == Int16Type && v.Float32?)
    || (t == Float32Type && v.Int16?)
  }

  /** The INT4 next to a float, on the side where the operator tells them apart. */
  function Neighbour(op: KvCompareOp, y: f32): int {
    if op == Lt || op == GtEq then (Value32(y) - 1) / UNIT32 else Value32(y) / UNIT32 + 1
  }

  /** The general path rounds INT4 columns to REAL, so a neighbour that rounds onto the literal counts as equal. */
  predicate RoundsOnto(op: KvCompareOp, y: f32) {
    var n := Neighbour(op, y);
    InType(Int32Type, n) && Value32(IntToF32(n)) == Value32(y)
  }

  /** It rounds INT4 literals too: to a REAL that the operator must not tell apart from the literal. */
  predicate RoundsHarmlessly(op: KvCompareOp, n: i32) {
    if op == Gt || op == LtEq then Value32(IntToF32(n)) <= n * UNIT32 else Value32(IntToF32(n)) >= n * UNIT32
  }

  predicate AgreeingOrder(t: DataType, op: KvCompareOp, v: ColumnValue, b: FastNumeric)
    requires FastNumericType(t)
  {
    if SameOrder(t, v) then true
    else if t == Int32Type && v.Float32? then IsNaN32(v.bits32) || !RoundsOnto(op, v.bits32)
    else if t == Float32Type && v.Int32? then RoundsHarmlessly(op, v.int32)
    else !FastCompare(NumericView(Farthest(t, op)).value, op, b)
  }

  /**
   * A literal for which comparing slots decides every value of a column as comparing values does. NULL always
   * is. Equality needs the column's own variant or a number that the column cannot hold, and `<>` a number. An
   * order needs the same comparison on both paths, or harmless rounding, or a bound that no value passes.
   */
  predicate AgreeingLiteral(t: DataType, op: KvCompareOp, v: ColumnValue, parse: ParseF64)
    requires FastNumericType(t)
  {
    match LiteralView(v, parse)
    case None => false
    case Some(b) =>
      v.Null? ||
      match op
      case Eq => OwnKind(t, v) || !Reaches(t, b)
      case NotEq => !(b.F64? && IsNaN64(b.bits64)) && (OwnKind(t, v) || !Reaches(t, b))
      case _ => AgreeingOrder(t, op, v, b)
  }

  /** Slots and values decide a column of type `t` alike: every value that it can hold. */
  ghost predicate ComparesAlike(t: DataType, op: KvCompareOp, v: ColumnValue, b: FastNumeric)
    requires FastNumericType(t)
  {
    forall x {:trigger Fits(t, x)} :: Fits(t, x) ==>
      (FastCompare(NumericView(x).value, op, b) <==> CompareValues(x, op, v))
  }

  // ---------------------------------------------------------------------------------------------
  // Equality.

  lemma WidenCmp(a: f32, b: f32)
    ensures CmpF64(Widen(a), Widen(b)) == CmpF32(a, b)
  {
    hide Value32, Value64;
    if !IsNaN32(a) && !IsNaN32(b) {
      WidenOrder(a, b);
      WidenOrder(b, a);
    }
  }

  /** Against a literal of its own variant, equality of values is equality of slots. */
  lemma OwnEquality(t: DataType, x: ColumnValue, v: ColumnValue)
    requires FastNumericType(t) && Fits(t, x) && !x.Null? && OwnKind(t, v)
    ensures NumericView(v).Some?
    ensures ValueEq(x, v) <==> FastCmp(NumericView(x).value, NumericView(v).value) == Some(Equal)
  {
    hide Value32, Value64, Widen, IntToF64, ValueEq, FastCmp;
    if x.Float32? {
      OwnReal(x.bits32, v.bits32);
    } else if x.Float64? {
      OwnDouble(x.bits64, v.bits64);
    } else {
      OwnInteger(x, v);
    }
  }

  lemma OwnReal(a: f32, b: f32)
    ensures ValueEq(Float32(a), Float32(b)) <==> FastCmp(F64(Widen(a)), F64(Widen(b))) == Some(Equal)
  {
    hide Value32, Value64, Widen;
    WidenCmp(a, b);
  }

  lemma OwnDouble(a: f64, b: f64)
    ensures ValueEq(Float64(a), Float64(b)) <==> FastCmp(F64(a), F64(b)) == Some(Equal)
  {
    hide Value64;
  }

  lemma OwnInteger(x: ColumnValue, v: ColumnValue)
    requires (x.Int16? && v.Int16?) || (x.Int32? && v.Int32?) || (x.Int64? && v.Int64?)
    ensures ValueEq(x, v) <==> FastCmp(I64(IntOf(x)), I64(IntOf(v))) == Some(Equal)
  {
  }

  lemma OtherVariant(t: DataType, x: ColumnValue, v: ColumnValue)
    requires FastNumericType(t) && Fits(t, x) && !x.Null? && !OwnKind(t, v)
    ensures !ValueEq(x, v)
  {
  }

  /** A value of the column equal to the slot. */
  lemma ReachedBy(t: DataType, b: FastNumeric) returns (x: ColumnValue)
    requires FastNumericType(t) && Reaches(t, b)
    ensures Fits(t, x) && FastCmp(NumericView(x).value, b) == Some(Equal)
  {
    hide Value32, Value64, Widen, IntToF64, Narrow, Pow2;
    var z := AsF64(b).value;
    NarrowNumber(z);
    if IntegerType(t) {
      x := IntOfType(t, match b case I64(n) => n case F64(_) => Clamp(t, Value64(z) / UNIT64));
    } else if t == Float64Type {
      x := Float64(z);
    } else {
      x := Float32(Narrow(z));
    }
  }

  /** No integer of the column rounds to a float that its nearest integer below misses. */
  lemma IntegerReaches(t: DataType, n: i64, z: f64)
    requires IntegerType(t) && InType(t, n) && Value64(IntToF64(n)) == Value64(z)
    ensures Value64(IntToF64(Clamp(t, Value64(z) / UNIT64))) == Value64(z)
  {
    hide Value64, IntToF64, Pow2;
    Units();
    var k := RoundedInteger64(n);
    QuotientOfMultiple(k, UNIT64);
    if InType(t, k) {
      RoundStops64(k, z);
    } else if k > n {
      var m := Clamp(t, k);
      IntToFloatMonotone(n, m);
      MulOrder(m, k, UNIT64);
      RoundStops64(m, z);
    } else {
      var m := Clamp(t, k);
      IntToFloatMonotone(m, n);
      MulOrder(k, m, UNIT64);
      RoundStops64(m, z);
    }
  }

  lemma QuotientOfMultiple(k: int, u: nat)
    requires u > 0
    ensures (k * u) / u == k
  {
    var q, r := (k * u) / u, (k * u) % u;
    assert k * u == q * u + r;
    if q < k { MulLe(q + 1, k, u); }
    if q > k { MulLe(k + 1, q, u); }
  }

  lemma MulOrder(a: int, b: int, u: nat)
    requires a <= b
    ensures a * u <= b * u
  {
    MulLe(a, b, u);
  }

  /** Only a slot that the column reaches equals a value of the column. */
  lemma EqualReaches(t: DataType, x: ColumnValue, b: FastNumeric)
    requires FastNumericType(t) && Fits(t, x) && !x.Null?
    requires FastCmp(NumericView(x).value, b) == Some(Equal)
    ensures Reaches(t, b)
  {
    hide Value32, Value64, Widen, IntToF64, Narrow, Pow2;
    if x.Float32? {
      NarrowsWhenFloat(AsF64(b).value, x.bits32);
    } else if !x.Float64? && b.F64? {
      IntegerReaches(t, NumericView(x).value.int64, b.bits64);
    }
  }

  /** Equality: the two paths agree on a whole column exactly when the literal is an agreeing one. */
  lemma EqualityAgreesExactly(t: DataType, op: KvCompareOp, v: ColumnValue, parse: ParseF64)
    requires FastNumericType(t) && LiteralView(v, parse).Some? && (op == Eq || op == NotEq)
    ensures ComparesAlike(t, op, v, LiteralView(v, parse).value) <==> AgreeingLiteral(t, op, v, parse)
  {
    hide Reaches, FastCmp, OwnKind, FastCompare, CompareValues, NumericView, Fits, Farthest;
    var b := LiteralView(v, parse).value;
    LiteralKind(v, parse);
    hide LiteralView;
    if AgreeingLiteral(t, op, v, parse) {
      forall x | Fits(t, x)
        ensures NumericView(x).Some? && (FastCompare(NumericView(x).value, op, b) <==> CompareValues(x, op, v))
      {
        ViewOfFitting(t, x);
        EqualityAgrees(t, op, x, v, b);
      }
    } else if op == NotEq && b.F64? && IsNaN64(b.bits64) {
      NothingEqualsNaN(t, Farthest(t, Gt), v, b, parse);
    } else {
      var x := ReachedBy(t, b);
      ReachedDiffers(t, op, x, v, b);
    }
  }

  lemma LiteralKind(v: ColumnValue, parse: ParseF64)
    requires LiteralView(v, parse).Some?
    ensures (v.Numeric? && LiteralView(v, parse).value.F64?) || NumericView(v) == LiteralView(v, parse)
    ensures LiteralView(v, parse).value.NullSlot? <==> v.Null?
  {
  }

  lemma EqualityAgrees(t: DataType, op: KvCompareOp, x: ColumnValue, v: ColumnValue, b: FastNumeric)
    requires FastNumericType(t) && Fits(t, x) && (op == Eq || op == NotEq)
    requires v.Numeric? || NumericView(v) == Some(b)
    requires v.Null? || OwnKind(t, v) || !Reaches(t, b)
    requires op == NotEq ==> !(b.F64? && IsNaN64(b.bits64))
    requires b.NullSlot? <==> v.Null?
    ensures FastCompare(NumericView(x).value, op, b) <==> CompareValues(x, op, v)
  {
    hide Reaches, ValueEq;
    NullComparesToNothing(x, b);
    if !x.Null? && !v.Null? {
      if op == NotEq {
        NumbersCompare(t, x, b);
      }
      if OwnKind(t, v) {
        OwnEquality(t, x, v);
      } else {
        OtherVariant(t, x, v);
        if FastCmp(NumericView(x).value, b) == Some(Equal) {
          EqualReaches(t, x, b);
        }
      }
    }
  }

  lemma NullComparesToNothing(x: ColumnValue, b: FastNumeric)
    ensures x.Null? || b.NullSlot? ==> NumericView(x).Some? ==> FastCmp(NumericView(x).value, b) == None
  {
  }

  /** Numbers other than NaN always compare. */
  lemma NumbersCompare(t: DataType, x: ColumnValue, b: FastNumeric)
    requires FastNumericType(t) && Fits(t, x) && !x.Null? && !b.NullSlot? && !(b.F64? && IsNaN64(b.bits64))
    ensures FastCmp(NumericView(x).value, b).Some?
  {
    hide Value64, Value32, Widen, IntToF64;
    ViewIsNumber(t, x);
  }

  lemma ViewIsNumber(t: DataType, x: ColumnValue)
    requires FastNumericType(t) && Fits(t, x) && !x.Null?
    ensures NumericView(x).Some? && AsF64(NumericView(x).value).Some? && !IsNaN64(AsF64(NumericView(x).value).value)
  {
  }

  lemma NothingEqualsNaN(t: DataType, x: ColumnValue, v: ColumnValue, b: FastNumeric, parse: ParseF64)
    requires FastNumericType(t) && Fits(t, x) && !x.Null? && LiteralView(v, parse) == Some(b) && b.F64? && IsNaN64(b.bits64)
    ensures !FastCompare(NumericView(x).value, NotEq, b) && CompareValues(x, NotEq, v)
  {
    hide Value64, Value32, IntToF64, IntToF32;
  }

  lemma ReachedDiffers(t: DataType, op: KvCompareOp, x: ColumnValue, v: ColumnValue, b: FastNumeric)
    requires FastNumericType(t) && Fits(t, x) && (op == Eq || op == NotEq)
    requires FastCmp(NumericView(x).value, b) == Some(Equal) && !OwnKind(t, v) && !v.Null?
    ensures !(FastCompare(NumericView(x).value, op, b) <==> CompareValues(x, op, v))
  {
    hide ValueEq;
    NullComparesToNothing(x, b);
    OtherVariant(t, x, v);
  }

  // ---------------------------------------------------------------------------------------------
  // Order: the same comparison on both paths.

  lemma ShortWidens(n: i16)
    ensures Value64(Widen(IntToF32(n))) == Value64(IntToF64(n))
  {
    hide Value32, Value64, Widen, Pow2, IntToF32, IntToF64;
    ShortIsExact32(n);
    IntIsExact64(n);
    CompareWidened(n, IntToF32(n));
  }

  /** `partial_cmp` and the slot comparison give the same order. */
  lemma SameOrderCmp(t: DataType, x: ColumnValue, v: ColumnValue)
    requires FastNumericType(t) && Fits(t, x) && !x.Null? && SameOrder(t, v)
    ensures NumericView(x).Some? && NumericView(v).Some?
    ensures FastCmp(NumericView(x).value, NumericView(v).value) == PartialCmp(x, v)
  {
    hide Widen, IntToF64, IntToF32, Value32, Value64;
    if x.Float32? && v.Float32? {
      WidenCmp(x.bits32, v.bits32);
    } else if x.Int16? && v.Float32? {
      ShortWidens(x.short);
      WidenCmp(IntToF32(x.short), v.bits32);
    } else if x.Float32? && v.Int16? {
      ShortWidens(v.short);
      WidenCmp(x.bits32, IntToF32(v.short));
    }
  }

  // ---------------------------------------------------------------------------------------------
  // Order: an INT4 column against a REAL literal.

  predicate OrderOp(op: KvCompareOp) {
    op != Eq && op != NotEq
  }

  lemma TwoTo31()
    ensures Value32(IntToF32(0x8000_0000)) == 0x8000_0000 * UNIT32
    ensures Value32(IntToF32(-0x8000_0000)) == -0x8000_0000 * UNIT32
  {
    var up: f32, down: f32 := 0x4F00_0000, 0xCF00_0000;
    ScaledInfinity(158, P32);
    assert Value32(up) == P32 * Pow2(157) && Value32(down) == 0 - P32 * Pow2(157);
    hide Pow2, Value32, IntToF32;
    PowerOf31();
    RoundStops32(0x8000_0000, up);
    RoundStops32(-0x8000_0000, down);
  }

  lemma PowerOf31()
    ensures P32 * Pow2(157) == 0x8000_0000 * UNIT32
  {
    Pow2Sum(8, 149);
    assert Pow2(8) == 256;
  }

  /** The integers next to a number: nothing lies between. */
  lemma NextBelow(x: int, y: int, u: nat)
    requires u > 0
    ensures var n := (y - 1) / u; n * u < y && (x * u < y ==> x <= n)
  {
    var n := (y - 1) / u;
    assert y - 1 == n * u + (y - 1) % u;
    if x * u < y && x > n { MulLe(n + 1, x, u); }
  }

  lemma NextAbove(x: int, y: int, u: nat)
    requires u > 0
    ensures var n := y / u + 1; n * u > y && (x * u > y ==> x >= n)
  {
    var n := y / u + 1;
    assert y == (n - 1) * u + y % u;
    if x * u > y && x < n { MulLe(x, n - 1, u); }
  }

  /** Rounding takes every INT4 between onto the literal too. */
  lemma BetweenBelow(x: i32, n: int, y: f32)
    requires x <= n && n * UNIT32 < Value32(y) && Value32(IntToF32(x)) == Value32(y)
    ensures InType(Int32Type, n) && Value32(IntToF32(n)) == Value32(y)
  {
    hide Pow2, Value32, IntToF32;
    Units();
    if n < 0x8000_0000 {
      IntToFloatMonotone(x, n);
      RoundStops32(n, y);
    } else {
      IntToFloatMonotone(x, 0x8000_0000);
      TwoTo31();
      MulLe(0x8000_0000, n, UNIT32);
    }
  }

  lemma BetweenAbove(x: i32, n: int, y: f32)
    requires n <= x && n * UNIT32 > Value32(y) && Value32(IntToF32(x)) == Value32(y)
    ensures InType(Int32Type, n) && Value32(IntToF32(n)) == Value32(y)
  {
    hide Pow2, Value32, IntToF32;
    Units();
    if n >= -0x8000_0000 {
      IntToFloatMonotone(n, x);
      RoundStops32(n, y);
    } else {
      IntToFloatMonotone(-0x8000_0000, x);
      TwoTo31();
      MulLe(n, -0x8000_0000, UNIT32);
    }
  }

  /** If rounding takes an INT4 onto the literal from the side that the operator looks at, it takes the neighbour too. */
  lemma OntoFromBelow(x: i32, y: f32)
    requires x * UNIT32 < Value32(y) && Value32(IntToF32(x)) == Value32(y)
    ensures RoundsOnto(Lt, y) && RoundsOnto(GtEq, y)
  {
    hide Pow2, Value32, IntToF32;
    Units();
    NextBelow(x, Value32(y), UNIT32);
    BetweenBelow(x, Neighbour(Lt, y), y);
  }

  lemma OntoFromAbove(x: i32, y: f32)
    requires x * UNIT32 > Value32(y) && Value32(IntToF32(x)) == Value32(y)
    ensures RoundsOnto(Gt, y) && RoundsOnto(LtEq, y)
  {
    hide Pow2, Value32, IntToF32;
    Units();
    NextAbove(x, Value32(y), UNIT32);
    BetweenAbove(x, Neighbour(Gt, y), y);
  }

  /** On slots the integer is compared as it is, on values as it rounds. */
  lemma IntAgainstReal(x: i32, y: f32)
    requires !IsNaN32(y)
    ensures FastCmp(I64(x), F64(Widen(y))) == Some(CompareInt(x * UNIT32, Value32(y)))
    ensures PartialCmp(Int32(x), Float32(y)) == Some(CompareInt(Value32(IntToF32(x)), Value32(y)))
  {
    hide Pow2, Value32, Value64, Widen, IntToF32, IntToF64;
    IntIsExact64(x);
    CompareWidened(x, y);
  }

  lemma IntColumnAgrees(op: KvCompareOp, x: i32, y: f32)
    requires OrderOp(op) && !IsNaN32(y) && !RoundsOnto(op, y)
    ensures FastCompare(I64(x), op, F64(Widen(y))) <==> CompareValues(Int32(x), op, Float32(y))
  {
    hide Pow2, Value32, IntToF32, FastCmp, PartialCmp, RoundsOnto;
    IntAgainstReal(x, y);
    RoundStops32(x, y);
    if x * UNIT32 < Value32(y) == Value32(IntToF32(x)) {
      OntoFromBelow(x, y);
    }
    if x * UNIT32 > Value32(y) == Value32(IntToF32(x)) {
      OntoFromAbove(x, y);
    }
  }

  lemma IntColumnDiffers(op: KvCompareOp, y: f32)
    requires OrderOp(op) && !IsNaN32(y) && RoundsOnto(op, y)
    ensures !(FastCompare(I64(Neighbour(op, y)), op, F64(Widen(y))) <==> CompareValues(Int32(Neighbour(op, y)), op, Float32(y)))
  {
    hide Pow2, Value32, IntToF32, FastCmp, PartialCmp;
    Units();
    NextBelow(0, Value32(y), UNIT32);
    NextAbove(0, Value32(y), UNIT32);
    IntAgainstReal(Neighbour(op, y), y);
  }

  // ---------------------------------------------------------------------------------------------
  // Order: a REAL column against an INT4 literal.

  lemma RealAgainstInt(x: f32, n: i32)
    requires !IsNaN32(x)
    ensures FastCmp(F64(Widen(x)), I64(n)) == Some(CompareInt(Value32(x), n * UNIT32))
    ensures PartialCmp(Float32(x), Int32(n)) == Some(CompareInt(Value32(x), Value32(IntToF32(n))))
  {
    hide Pow2, Value32, Value64, Widen, IntToF32, IntToF64;
    IntIsExact64(n);
    CompareWidened(n, x);
  }

  lemma RealColumnAgrees(op: KvCompareOp, x: f32, n: i32)
    requires OrderOp(op) && !IsNaN32(x) && RoundsHarmlessly(op, n)
    ensures FastCompare(F64(Widen(x)), op, I64(n)) <==> CompareValues(Float32(x), op, Int32(n))
  {
    hide Pow2, Value32, IntToF32, FastCmp, PartialCmp;
    RealAgainstInt(x, n);
    RoundStops32(n, x);
  }

  lemma RealColumnDiffers(op: KvCompareOp, n: i32)
    requires OrderOp(op) && !RoundsHarmlessly(op, n)
    ensures var x := IntToF32(n); !(FastCompare(F64(Widen(x)), op, I64(n)) <==> CompareValues(Float32(x), op, Int32(n)))
  {
    hide Pow2, Value32, IntToF32, FastCmp, PartialCmp;
    RealAgainstInt(IntToF32(n), n);
  }

  // ---------------------------------------------------------------------------------------------
  // Order: literals that the general path does not order.

  /** Neither ordered alike on both paths nor by rounding on one. */
  predicate Unordered(t: DataType, v: ColumnValue) {
    !SameOrder(t, v) && !(t == Int32Type && v.Float32?) && !(t == Float32Type && v.Int32?)
  }

  lemma GeneralFindsNoOrder(t: DataType, x: ColumnValue, v: ColumnValue)
    requires FastNumericType(t) && Fits(t, x) && !x.Null? && Unordered(t, v) && (v.Numeric? || NumericView(v).Some?)
    ensures PartialCmp(x, v) == None
  {
  }

  /** No value of the column lies beyond the farthest. */
  lemma FarthestIsFarthest(t: DataType, op: KvCompareOp, x: ColumnValue)
    requires FastNumericType(t) && Fits(t, x) && !x.Null?
    ensures var (near, far) := (AsF64(NumericView(x).value).value, AsF64(NumericView(Farthest(t, op)).value).value);
      if op == Gt || op == GtEq then Value64(near) <= Value64(far) else Value64(near) >= Value64(far)
  {
    hide Value32, Value64, Widen, IntToF64, Pow2;
    if x.Float64? {
      InfinitiesBound64(x.bits64);
    } else if x.Float32? {
      InfinitiesBound32(x.bits32);
    } else {
      IntegerIsNearer(t, op, x);
    }
  }

  lemma IntegerIsNearer(t: DataType, op: KvCompareOp, x: ColumnValue)
    requires IntegerType(t) && OwnVariant(t, x)
    ensures var (n, far) := (IntOf(x), IntOf(Farthest(t, op)));
      if op == Gt || op == GtEq then n <= far && Value64(IntToF64(n)) <= Value64(IntToF64(far))
      else n >= far && Value64(IntToF64(n)) >= Value64(IntToF64(far))
  {
    hide Value32, Value64, IntToF64, IntToF32, Pow2;
    var (n, far) := (IntOf(x), IntOf(Farthest(t, op)));
    hide Farthest;
    if n <= far {
      IntToFloatMonotone(n, far);
    }
    if n >= far {
      IntToFloatMonotone(far, n);
    }
  }

  lemma InfinitiesBound64(b: f64)
    requires !IsNaN64(b)
    ensures Value64(SIGN64 + INF64) <= Value64(b) <= Value64(INF64)
  {
    var m := b % SIGN64;
    assert m == if b < SIGN64 then b else b - SIGN64;
    if m < INF64 {
      MagMonotone(m, INF64);
    }
    hide Mag64;
  }

  lemma InfinitiesBound32(b: f32)
    requires !IsNaN32(b)
    ensures Value64(Widen(SIGN32 + INF32)) <= Value64(Widen(b)) <= Value64(Widen(INF32))
  {
    hide Value64;
    InfinitiesBound64(Widen(b));
    assert Widen(INF32) == INF64 && Widen(SIGN32 + INF32) == SIGN64 + INF64;
  }

  /** What a slot comparison accepts for some value of the column, it accepts for the farthest. */
  lemma FarthestAccepts(t: DataType, op: KvCompareOp, x: ColumnValue, v: ColumnValue, b: FastNumeric)
    requires FastNumericType(t) && Fits(t, x) && !x.Null? && OrderOp(op) && Unordered(t, v)
    requires (v.Numeric? && b.F64?) || NumericView(v) == Some(b)
    requires FastCompare(NumericView(x).value, op, b)
    ensures FastCompare(NumericView(Farthest(t, op)).value, op, b)
  {
    hide Value32, Value64, Widen, IntToF64, Farthest;
    FarthestIsFarthest(t, op, x);
    ViewIsNumber(t, Farthest(t, op));
    assert IntegerType(t) ==> b.F64?;
  }

  // ---------------------------------------------------------------------------------------------

  lemma OrderAgrees(t: DataType, op: KvCompareOp, x: ColumnValue, v: ColumnValue, b: FastNumeric)
    requires FastNumericType(t) && Fits(t, x) && OrderOp(op) && !v.Null?
    requires (v.Numeric? && b.F64?) || NumericView(v) == Some(b)
    requires AgreeingOrder(t, op, v, b)
    ensures FastCompare(NumericView(x).value, op, b) <==> CompareValues(x, op, v)
  {
    hide PartialCmp, FastCmp, Farthest, Value32, IntToF32, Widen, RoundsOnto, RoundsHarmlessly;
    NullComparesToNothing(x, b);
    if !x.Null? {
      if SameOrder(t, v) {
        SameOrderCmp(t, x, v);
      } else if t == Int32Type && v.Float32? {
        if IsNaN32(v.bits32) {
          NaNComparesToNothing(x.int32, v.bits32);
        } else {
          IntColumnAgrees(op, x.int32, v.bits32);
        }
      } else if t == Float32Type && v.Int32? {
        RealColumnAgrees(op, x.bits32, v.int32);
      } else {
        GeneralFindsNoOrder(t, x, v);
        if FastCompare(NumericView(x).value, op, b) {
          FarthestAccepts(t, op, x, v, b);
        }
      }
    }
  }

  lemma NaNComparesToNothing(x: i32, y: f32)
    requires IsNaN32(y)
    ensures FastCmp(I64(x), F64(Widen(y))) == None && PartialCmp(Int32(x), Float32(y)) == None
  {
    hide Value32, Value64, IntToF32, IntToF64;
  }

  /** A value of the column on which the paths differ, for a literal that is not an agreeing one. */
  lemma OrderDiffers(t: DataType, op: KvCompareOp, v: ColumnValue, b: FastNumeric) returns (x: ColumnValue)
    requires FastNumericType(t) && OrderOp(op) && !v.Null?
    requires (v.Numeric? && b.F64?) || NumericView(v) == Some(b)
    requires !AgreeingOrder(t, op, v, b)
    ensures Fits(t, x) && !(FastCompare(NumericView(x).value, op, b) <==> CompareValues(x, op, v))
  {
    hide PartialCmp, FastCmp, Farthest, Value32, IntToF32, Widen, RoundsHarmlessly;
    if t == Int32Type && v.Float32? {
      x := Int32(Neighbour(op, v.bits32));
      IntColumnDiffers(op, v.bits32);
    } else if t == Float32Type && v.Int32? {
      x := Float32(IntToF32(v.int32));
      RealColumnDiffers(op, v.int32);
    } else {
      x := Farthest(t, op);
      GeneralFindsNoOrder(t, x, v);
    }
  }

  /** Order: the two paths agree on a whole column exactly when the literal is an agreeing one. */
  lemma OrderAgreesExactly(t: DataType, op: KvCompareOp, v: ColumnValue, parse: ParseF64)
    requires FastNumericType(t) && LiteralView(v, parse).Some? && OrderOp(op)
    ensures ComparesAlike(t, op, v, LiteralView(v, parse).value) <==> AgreeingLiteral(t, op, v, parse)
  {
    hide AgreeingOrder, FastCompare, CompareValues, NumericView, Fits;
    var b := LiteralView(v, parse).value;
    LiteralKind(v, parse);
    if AgreeingLiteral(t, op, v, parse) {
      forall x | Fits(t, x)
        ensures NumericView(x).Some? && (FastCompare(NumericView(x).value, op, b) <==> CompareValues(x, op, v))
      {
        ViewOfFitting(t, x);
        CompareAgrees(t, x, op, v, parse);
      }
    } else {
      var x := OrderDiffers(t, op, v, b);
    }
  }

  /**
   * For every fast column type, operator and literal that has a slot: comparing slots decides every value that
   * the column can hold as comparing values does, exactly when the literal is an agreeing one.
   */
  lemma LiteralAgreesExactly(t: DataType, op: KvCompareOp, v: ColumnValue, parse: ParseF64)
    requires FastNumericType(t) && LiteralView(v, parse).Some?
    ensures ComparesAlike(t, op, v, LiteralView(v, parse).value) <==> AgreeingLiteral(t, op, v, parse)
  {
    hide ComparesAlike, AgreeingLiteral, LiteralView;
    if OrderOp(op) {
      OrderAgreesExactly(t, op, v, parse);
    } else {
      EqualityAgreesExactly(t, op, v, parse);
    }
  }

  /** A slot comparison with an agreeing literal decides as the comparison of the values does. */
  lemma CompareAgrees(t: DataType, x: ColumnValue, op: KvCompareOp, v: ColumnValue, parse: ParseF64)
    requires FastNumericType(t) && Fits(t, x) && AgreeingLiteral(t, op, v, parse)
    ensures NumericView(x).Some? && LiteralView(v, parse).Some?
    ensures FastCompare(NumericView(x).value, op, LiteralView(v, parse).value) <==> CompareValues(x, op, v)
  {
    hide FastCmp, PartialCmp, ValueEq, AgreeingOrder, Reaches, OwnKind;
    ViewOfFitting(t, x);
    LiteralKind(v, parse);
    var b := LiteralView(v, parse).value;
    if v.Null? {
      NullComparesToNothing(x, b);
    } else if OrderOp(op) {
      OrderAgrees(t, op, x, v, b);
    } else {
      EqualityAgrees(t, op, x, v, b);
    }
  }

  // ---------------------------------------------------------------------------------------------
  // Literals on which the paths part, and one where a variant of its own is not needed.

  /** An INT column against a DOUBLE literal: the general path finds no order, the slots do. */
  lemma IntAgainstDoubleDiffers(x: i32)
    requires x > 0
    ensures !CompareValues(Int32(x), Gt, Float64(0))
    ensures FastCompare(NumericView(Int32(x)).value, Gt, NumericView(Float64(0)).value)
  {
    hide Value64, IntToF64, Pow2;
    IntIsExact64(x);
    Units();
    MulSign(x, UNIT64);
    ZeroValue();
  }

  lemma ZeroValue()
    ensures Value64(0) == 0 && !IsNaN64(0)
  {
  }

  /** INT4 values from 2^24 on, as REAL: 16777217 rounds to 16777216, so the general path does not find it greater. */
  lemma RoundedNeighbour()
    ensures FastCompare(I64(16_777_217), Gt, F64(Widen(0x4B80_0000))) && !CompareValues(Int32(16_777_217), Gt, Float32(0x4B80_0000))
  {
    hide Value32, IntToF32, FastCmp, PartialCmp, Pow2;
    IntAgainstReal(16_777_217, 0x4B80_0000);
    TwoTo24();
    Units();
    MulStrict(16_777_216, 16_777_217, UNIT32);
  }

  lemma TwoTo24()
    ensures Value32(0x4B80_0000) == 16_777_216 * UNIT32 == Value32(IntToF32(16_777_217)) && !IsNaN32(0x4B80_0000)
  {
    Value24();
    hide Value32, IntToF32, Pow2, RoundedMag;
    Pow2Sum(1, 149);
    TwoPowOne();
    BitLenOf();
    IntValue(16_777_217);
    LongMag(16_777_217, 23, 127);
    RoundedTie();
  }

  lemma RoundedTie()
    ensures RoundShift(16_777_217, 1) == 8_388_608
  {
    TwoPowOne();
  }

  lemma Value24()
    ensures Value32(0x4B80_0000) == P32 * Pow2(150) && !IsNaN32(0x4B80_0000)
  {
    ScaledInfinity(151, P32);
    hide Pow2;
  }

  lemma BitLenOf()
    ensures BitLen(16_777_217) == 25
  {
    Pow2Values();
    assert Pow2(24) == 16_777_216 && Pow2(25) == 33_554_432;
    if BitLen(16_777_217) > 25 { Pow2Monotone(25, BitLen(16_777_217) - 1); }
    if BitLen(16_777_217) < 25 { Pow2Monotone(BitLen(16_777_217), 24); }
  }
}
