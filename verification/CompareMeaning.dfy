/** What comparing two column values means, in terms of numbers and texts. */
module CompareMeaning {
  import opened Basics
  import opened Bytes
  import opened Floats
  import opened Values
  import opened Predicates
  import opened SlotComparison
  import TopNOrder
  import Decimal

  /** The operator between numbers. */
  predicate Relates(op: KvCompareOp, x: int, y: int) {
    match op
    case Eq => x == y
    case NotEq => x != y
    case Gt => x > y
    case GtEq => x >= y
    case Lt => x < y
    case LtEq => x <= y
  }

  /** The operator that holds where the other one does not. */
  function Complement(op: KvCompareOp): KvCompareOp {
    match op
    case Eq => NotEq
    case NotEq => Eq
    case Gt => LtEq
    case GtEq => KvCompareOp.Lt
    case Lt => GtEq
    case LtEq => Gt
  }

  /** Integers compare as numbers; across widths only the order operators do, and no two are equal. */
  lemma IntegersCompare(v: ColumnValue, op: KvCompareOp, w: ColumnValue)
    requires IsInt(v) && IsInt(w)
    ensures v.Int16? == w.Int16? && v.Int32? == w.Int32? ==> (CompareValues(v, op, w) <==> Relates(op, IntOf(v), IntOf(w)))
    ensures op != Eq && op != NotEq ==> (CompareValues(v, op, w) <==> Relates(op, IntOf(v), IntOf(w)))
    ensures v.Int16? != w.Int16? || v.Int32? != w.Int32? ==> !CompareValues(v, Eq, w) && CompareValues(v, NotEq, w)
  {
  }

  /** Doubles compare as the numbers they denote. */
  lemma DoublesCompare(x: f64, op: KvCompareOp, y: f64)
    requires !IsNaN64(x) && !IsNaN64(y)
    ensures CompareValues(Float64(x), op, Float64(y)) <==> Relates(op, Value64(x), Value64(y))
  {
    hide Value64;
  }

  /** A FLOAT4 is ordered against a FLOAT8 as the double that it widens to. */
  lemma WidenedCompares(x: f32, op: KvCompareOp, y: f64)
    requires !IsNaN64(Widen(x)) && !IsNaN64(y) && op != Eq && op != NotEq
    ensures CompareValues(Float32(x), op, Float64(y)) <==> Relates(op, Value64(Widen(x)), Value64(y))
    ensures CompareValues(Float64(y), op, Float32(x)) <==> Relates(op, Value64(y), Value64(Widen(x)))
  {
    hide Value64, Widen;
  }

  lemma FloatsCompare(x: f32, op: KvCompareOp, y: f32)
    requires !IsNaN32(x) && !IsNaN32(y)
    ensures CompareValues(Float32(x), op, Float32(y)) <==> Relates(op, Value32(x), Value32(y))
  {
    hide Value32;
  }

  /** A NaN is only different from a number, whichever side it is on, and from itself. */
  lemma NaNCompares(x: f64, op: KvCompareOp, y: f64)
    requires IsNaN64(x) || IsNaN64(y)
    ensures CompareValues(Float64(x), op, Float64(y)) <==> op == NotEq
  {
    hide Value64;
  }

  /** Texts, dates, timestamps, UUIDs and byte strings compare byte by byte. */
  lemma StringsCompare(v: ColumnValue, op: KvCompareOp, w: ColumnValue)
    requires (v.Text? && w.Text?) || (v.Date? && w.Date?) || (v.Timestamp? && w.Timestamp?) || (v.TimestampTz? && w.TimestampTz?)
      || (v.Uuid? && w.Uuid?) || (v.Bytea? && w.Bytea?)
    ensures var s, t := TopNOrder.Spelling(v), TopNOrder.Spelling(w);
      CompareValues(v, op, w) <==>
        match op
        case Eq => s == t
        case NotEq => s != t
        case Gt => Bytes.Lt(t, s)
        case GtEq => s == t || Bytes.Lt(t, s)
        case Lt => Bytes.Lt(s, t)
        case LtEq => s == t || Bytes.Lt(s, t)
  {
    hide PartialCmp, ValueEq, TopNOrder.Spelling, Bytes.Lt;
    SpellingsAgree(v, w);
    LtTotal(TopNOrder.Spelling(v), TopNOrder.Spelling(w));
  }

  lemma SpellingsAgree(v: ColumnValue, w: ColumnValue)
    requires (v.Text? && w.Text?) || (v.Date? && w.Date?) || (v.Timestamp? && w.Timestamp?) || (v.TimestampTz? && w.TimestampTz?)
      || (v.Uuid? && w.Uuid?) || (v.Bytea? && w.Bytea?)
    ensures PartialCmp(v, w) == Some(Decimal.CmpBytes(TopNOrder.Spelling(v), TopNOrder.Spelling(w)))
    ensures ValueEq(v, w) <==> TopNOrder.Spelling(v) == TopNOrder.Spelling(w)
  {
    hide PartialCmp, ValidUtf8, Decimal.CmpBytes;
    TopNOrder.SpellingsCompare(v, w);
  }

  /** False is less than true. */
  lemma BooleansCompare(a: bool, op: KvCompareOp, b: bool)
    ensures CompareValues(Boolean(a), op, Boolean(b)) <==> Relates(op, if a then 1 else 0, if b then 1 else 0)
  {
  }

  /** Nothing compares with NULL, and where two values do compare, an operator or its complement holds. */
  lemma ComplementExactly(v: ColumnValue, op: KvCompareOp, w: ColumnValue)
    ensures v.Null? || w.Null? ==> !CompareValues(v, op, w) && !CompareValues(v, Complement(op), w)
    ensures !v.Null? && !w.Null? && (PartialCmp(v, w).Some? || op == Eq || op == NotEq) ==>
      (CompareValues(v, Complement(op), w) <==> !CompareValues(v, op, w))
  {
    hide PartialCmp, ValueEq;
  }
}
