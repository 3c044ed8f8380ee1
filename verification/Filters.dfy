/** Filter expressions over decoded rows, evaluated in three-valued logic. */
module Filters {
  import opened Basics
  import opened Values
  import opened Predicates

  datatype Operator = AndOp | OrOp | Comparison(op: KvCompareOp) | OtherOp

  /** `scalar_value_to_column_value` gives values of these kinds only. */
  type Scalar = v: ColumnValue | v.Null? || v.Boolean? || v.Int32? || v.Int64? || v.Float32? || v.Float64? || v.Text? witness Null

  /** The expressions that filters are made of; a literal is None when its scalar type is not supported. */
  datatype Expr =
    | Column(name: string)
    | Literal(value: Option<Scalar>)
    | Binary(left: Expr, operator: Operator, right: Expr)
    | NotExpr(inner: Expr)
    | IsNullExpr(inner: Expr)
    | IsNotNullExpr(inner: Expr)
    | IsTrue(inner: Expr)
    | IsFalse(inner: Expr)
    | IsNotTrue(inner: Expr)
    | IsNotFalse(inner: Expr)
    | BetweenExpr(inner: Expr, low: Expr, high: Expr, negated: bool)
    | Cast(inner: Expr)
    | OtherExpr

  /** `eval_filter_value`: casts are transparent. */
  function EvalValue(row: RowMap, e: Expr): Option<ColumnValue> {
    match e
    case Column(name) => if name in row then Some(row[name]) else None
    case Literal(v) => v
    case Cast(inner) => EvalValue(row, inner)
    case _ => None
  }

  function AsBool(v: Option<ColumnValue>): Option<bool> {
    match v
    case Some(Boolean(b)) => Some(b)
    case _ => None
  }

  function Three(v: Option<ColumnValue>, test: ColumnValue -> bool): Option<bool> {
    match v
    case None => None
    case Some(x) => Some(test(x))
  }

  /** `eval_filter_bool`: None is unknown. */
  function EvalBool(row: RowMap, e: Expr): Option<bool> {
    match e
    case Column(_) => AsBool(EvalValue(row, e))
    case Literal(_) => AsBool(EvalValue(row, e))
    case Binary(left, AndOp, right) =>
      var l, r := EvalBool(row, left), EvalBool(row, right);
      if l == Some(false) || r == Some(false) then Some(false)
      else if l == Some(true) && r == Some(true) then Some(true)
      else None
    case Binary(left, OrOp, right) =>
      var l, r := EvalBool(row, left), EvalBool(row, right);
      if l == Some(true) || r == Some(true) then Some(true)
      else if l == Some(false) && r == Some(false) then Some(false)
      else None
    case Binary(left, Comparison(op), right) =>
      var l, r := EvalValue(row, left), EvalValue(row, right);
      if l.None? || r.None? || l.value.Null? || r.value.Null? then None else Some(CompareValues(l.value, op, r.value))
    case Binary(_, OtherOp, _) => None
    case NotExpr(inner) =>
      var b := EvalBool(row, inner);
      if b.None? then None else Some(!b.value)
    case IsNullExpr(inner) => Three(EvalValue(row, inner), (v: ColumnValue) => v.Null?)
    case IsNotNullExpr(inner) => Three(EvalValue(row, inner), (v: ColumnValue) => !v.Null?)
    case IsTrue(inner) => Three(EvalValue(row, inner), v => v == Boolean(true))
    case IsFalse(inner) => Three(EvalValue(row, inner), v => v == Boolean(false))
    case IsNotTrue(inner) => Three(EvalValue(row, inner), v => v != Boolean(true))
    case IsNotFalse(inner) => Three(EvalValue(row, inner), v => v != Boolean(false))
    case BetweenExpr(inner, low, high, negated) =>
      var v, l, h := EvalValue(row, inner), EvalValue(row, low), EvalValue(row, high);
      if v.None? || l.None? || h.None? || v.value.Null? || l.value.Null? || h.value.Null? then None
      else
        var inside := CompareValues(v.value, GtEq, l.value) && CompareValues(v.value, LtEq, h.value);
        Some(if negated then !inside else inside)
    case Cast(inner) => EvalBool(row, inner)
    case OtherExpr => None
  }

  /** `row_matches_datafusion_filters`: unknown does not match. */
  predicate RowMatches(row: RowMap, filters: seq<Expr>) {
    forall i :: 0 <= i < |filters| ==> EvalBool(row, filters[i]) == Some(true)
  }
}
