/** Filter predicates and their general meaning. */
module Predicates {
  import opened Basics
  import opened Values

  datatype KvCompareOp = Eq | NotEq | Gt | GtEq | Lt | LtEq

  datatype KvPredicate =
    | ColumnCompare(column: nat, op: KvCompareOp, value: ColumnValue)
    | And(parts: seq<KvPredicate>)
    | Or(parts: seq<KvPredicate>)
    | Not(inner: KvPredicate)
    | IsNull(column: nat)
    | IsNotNull(column: nat)
    | Between(column: nat, low: ColumnValue, high: ColumnValue, negated: bool)

  /** The outcome of an ordering operator, given how the operands compare. */
  predicate Accepts(op: KvCompareOp, o: Option<Ordering>)
  {
    match op
    case Eq => o == Some(Equal)
    case NotEq => o.Some? && o != Some(Equal)
    case Gt => o == Some(Greater)
    case GtEq => o.Some? && o != Some(Less)
    case Lt => o == Some(Less)
    case LtEq => o.Some? && o != Some(Greater)
  }

  /** `compare_values`: equality by variant and value, order by `partial_cmp`; NULL never compares. */
  predicate CompareValues(left: ColumnValue, op: KvCompareOp, right: ColumnValue) {
    if left.Null? || right.Null? then false
    else
      match op
      case Eq => ValueEq(left, right)
      case NotEq => !ValueEq(left, right)
      case _ => Accepts(op, PartialCmp(left, right))
  }

  /** The value of a column of some row, by column index; NULL for a column that the row does not show. */
  type Row = nat -> ColumnValue

  /** `kv_predicate_matches` and `projected_predicate_matches`. */
  predicate Matches(p: KvPredicate, row: Row)
    decreases p
  {
    match p
    case ColumnCompare(c, op, v) => CompareValues(row(c), op, v)
    case And(parts) => forall i :: 0 <= i < |parts| ==> Matches(parts[i], row)
    case Or(parts) => exists i :: 0 <= i < |parts| && Matches(parts[i], row)
    case Not(inner) => !Matches(inner, row)
    case IsNull(c) => row(c).Null?
    case IsNotNull(c) => !row(c).Null?
    case Between(c, low, high, negated) =>
      var inside := CompareValues(row(c), GtEq, low) && CompareValues(row(c), LtEq, high);
      if negated then !inside else inside
  }

  /** `kv_row_matches`. */
  predicate AllMatch(filters: seq<KvPredicate>, row: Row) {
    forall i :: 0 <= i < |filters| ==> Matches(filters[i], row)
  }

  /** Every column that the predicate reads is listed. */
  predicate ReadsOnly(p: KvPredicate, columns: seq<nat>) {
    match p
    case ColumnCompare(c, _, _) => c in columns
    case And(parts) => forall i :: 0 <= i < |parts| ==> ReadsOnly(parts[i], columns)
    case Or(parts) => forall i :: 0 <= i < |parts| ==> ReadsOnly(parts[i], columns)
    case Not(inner) => ReadsOnly(inner, columns)
    case IsNull(c) => c in columns
    case IsNotNull(c) => c in columns
    case Between(c, _, _, _) => c in columns
  }

  lemma {:induction false} SameColumnsSameMatch(p: KvPredicate, columns: seq<nat>, a: Row, b: Row)
    requires ReadsOnly(p, columns) && forall c :: c in columns ==> a(c) == b(c)
    ensures Matches(p, a) <==> Matches(p, b)
    decreases p
  {
    hide CompareValues;
    match p {
      case And(parts) => forall i | 0 <= i < |parts| { SameColumnsSameMatch(parts[i], columns, a, b); }
      case Or(parts) => forall i | 0 <= i < |parts| { SameColumnsSameMatch(parts[i], columns, a, b); }
      case Not(inner) => SameColumnsSameMatch(inner, columns, a, b);
      case _ =>
    }
  }

  /** `row_value`: a decoded row map seen by column index. */
  function RowOfMap(columns: seq<ColumnSchema>, row: RowMap): Row {
    (c: nat) => if c < |columns| then RowValue(row, columns[c].name) else Null
  }
}
