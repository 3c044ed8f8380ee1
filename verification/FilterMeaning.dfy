/** What a filter says about the values of a row, and which rows a load therefore returns. */
module FilterMeaning {
  import opened Basics
  import opened Bytes
  import opened Values
  import opened Predicates
  import opened CompareMeaning
  import opened SlotComparison
  import opened Filters
  import opened ZoneMaps
  import opened ChunkPruning
  import opened NegatedBetween
  import opened OlapRefresh

  // ---------------------------------------------------------------------------------------------
  // When a filter is true, and when it is false.

  /** The value that an operand stands for: a column of the row, or a literal, under any casts. */
  function Operand(row: RowMap, e: Expr): Option<ColumnValue> {
    if e.Column? then (if e.name in row then Some(row[e.name]) else None)
    else if e.Literal? && e.value.Some? then Some(e.value.value)
    else if e.Cast? then Operand(row, e.inner)
    else None
  }

  predicate Known(v: Option<ColumnValue>) {
    v.Some? && !v.value.Null?
  }

  predicate Inside(row: RowMap, inner: Expr, low: Expr, high: Expr)
    requires Known(Operand(row, inner)) && Known(Operand(row, low)) && Known(Operand(row, high))
  {
    CompareValues(Operand(row, inner).value, GtEq, Operand(row, low).value) && CompareValues(Operand(row, inner).value, LtEq, Operand(row, high).value)
  }

  /** The filter is true (`sense`) or false of the row; it may be neither. */
  predicate Says(row: RowMap, e: Expr, sense: bool)
    decreases e
  {
    match e
    case Binary(left, AndOp, right) =>
      if sense then Says(row, left, true) && Says(row, right, true) else Says(row, left, false) || Says(row, right, false)
    case Binary(left, OrOp, right) =>
      if sense then Says(row, left, true) || Says(row, right, true) else Says(row, left, false) && Says(row, right, false)
    case Binary(left, Comparison(op), right) =>
      Known(Operand(row, left)) && Known(Operand(row, right)) && CompareValues(Operand(row, left).value, op, Operand(row, right).value) == sense
    case NotExpr(inner) => Says(row, inner, !sense)
    case IsNullExpr(inner) => Operand(row, inner).Some? && Operand(row, inner).value.Null? == sense
    case IsNotNullExpr(inner) => Operand(row, inner).Some? && Operand(row, inner).value.Null? != sense
    case IsTrue(inner) => Operand(row, inner).Some? && (Operand(row, inner) == Some(Boolean(true))) == sense
    case IsFalse(inner) => Operand(row, inner).Some? && (Operand(row, inner) == Some(Boolean(false))) == sense
    case IsNotTrue(inner) => Operand(row, inner).Some? && (Operand(row, inner) == Some(Boolean(true))) != sense
    case IsNotFalse(inner) => Operand(row, inner).Some? && (Operand(row, inner) == Some(Boolean(false))) != sense
    case BetweenExpr(inner, low, high, negated) =>
      && Known(Operand(row, inner)) && Known(Operand(row, low)) && Known(Operand(row, high))
      && (Inside(row, inner, low, high) != negated) == sense
    case Cast(inner) => Says(row, inner, sense)
    case Column(_) => Operand(row, e) == Some(Boolean(sense))
    case Literal(_) => Operand(row, e) == Some(Boolean(sense))
    case _ => false
  }

  lemma {:induction false} OperandIs(row: RowMap, e: Expr)
    ensures EvalValue(row, e) == Operand(row, e)
    decreases e
  {
    if e.Cast? {
      OperandIs(row, e.inner);
    }
  }

  /** The evaluator answers true, false or unknown exactly as the filter says of the row. */
  lemma {:induction false} EvaluatesExactly(row: RowMap, e: Expr, sense: bool)
    ensures EvalBool(row, e) == Some(sense) <==> Says(row, e, sense)
    decreases e, 0
  {
    hide CompareValues;
    match e {
      case Binary(left, AndOp, right) => BothSenses(row, left); BothSenses(row, right);
      case Binary(left, OrOp, right) => BothSenses(row, left); BothSenses(row, right);
      case Binary(left, Comparison(_), right) => OperandIs(row, left); OperandIs(row, right);
      case NotExpr(inner) => BothSenses(row, inner);
      case IsNullExpr(inner) => OperandIs(row, inner);
      case IsNotNullExpr(inner) => OperandIs(row, inner);
      case IsTrue(inner) => OperandIs(row, inner);
      case IsFalse(inner) => OperandIs(row, inner);
      case IsNotTrue(inner) => OperandIs(row, inner);
      case IsNotFalse(inner) => OperandIs(row, inner);
      case BetweenExpr(inner, low, high, _) => OperandIs(row, inner); OperandIs(row, low); OperandIs(row, high);
      case Cast(inner) => EvaluatesExactly(row, inner, sense);
      case Column(_) => OperandIs(row, e);
      case Literal(_) => OperandIs(row, e);
      case _ =>
    }
  }

  lemma BothSenses(row: RowMap, e: Expr)
    ensures EvalBool(row, e) == Some(true) <==> Says(row, e, true)
    ensures EvalBool(row, e) == Some(false) <==> Says(row, e, false)
    decreases e, 1
  {
    EvaluatesExactly(row, e, true);
    EvaluatesExactly(row, e, false);
  }

  // ---------------------------------------------------------------------------------------------
  // Laws.

  /** NOT NOT is nothing, and NOT goes through AND and OR, in all three truth values. */
  lemma NegationLaws(row: RowMap, a: Expr, b: Expr)
    ensures EvalBool(row, NotExpr(NotExpr(a))) == EvalBool(row, a)
    ensures EvalBool(row, NotExpr(a)).None? <==> EvalBool(row, a).None?
    ensures EvalBool(row, NotExpr(a)) != EvalBool(row, a) || EvalBool(row, a).None?
    ensures EvalBool(row, NotExpr(Expr.Binary(a, AndOp, b))) == EvalBool(row, Expr.Binary(NotExpr(a), OrOp, NotExpr(b)))
    ensures EvalBool(row, NotExpr(Expr.Binary(a, OrOp, b))) == EvalBool(row, Expr.Binary(NotExpr(a), AndOp, NotExpr(b)))
  {
  }

  /** NOT of a comparison of values that compare is the complementary comparison; with NULL both are unknown. */
  lemma NotComparison(row: RowMap, left: Expr, op: KvCompareOp, right: Expr)
    requires EvalValue(row, left).Some? && EvalValue(row, right).Some?
    ensures var v, w := EvalValue(row, left).value, EvalValue(row, right).value;
      var negated, complement := EvalBool(row, NotExpr(Expr.Binary(left, Comparison(op), right))), EvalBool(row, Expr.Binary(left, Comparison(Complement(op)), right));
      && (v.Null? || w.Null? ==> negated == complement == None)
      && (!v.Null? && !w.Null? && (PartialCmp(v, w).Some? || op == Eq || op == NotEq) ==> negated == complement && negated.Some?)
  {
    hide CompareValues, PartialCmp;
    ComplementExactly(EvalValue(row, left).value, op, EvalValue(row, right).value);
  }

  /** The tests of a column decide from what the row stores, NULL included. */
  lemma TestsDecide(row: RowMap, name: string)
    requires name in row
    ensures var v := row[name];
      && EvalBool(row, IsNullExpr(Column(name))) == Some(v == Null)
      && EvalBool(row, IsNotNullExpr(Column(name))) == Some(v != Null)
      && EvalBool(row, IsTrue(Column(name))) == Some(v == Boolean(true))
      && EvalBool(row, IsNotTrue(Column(name))) == Some(v == Null || v != Boolean(true))
      && EvalBool(row, IsFalse(Column(name))) == Some(v == Boolean(false))
      && EvalBool(row, IsNotFalse(Column(name))) == Some(v == Null || v != Boolean(false))
  {
  }

  // ---------------------------------------------------------------------------------------------
  // Loads.

  /** The rows of the table, restricted to the needed columns, of which every filter is true. */
  function WantedRows(columns: seq<ColumnSchema>, needed: seq<nat>, filters: seq<Expr>, source: seq<RowMap>): seq<RowMap>
    requires InRangeIndices(columns, needed)
  {
    if source == [] then []
    else
      var row := Restricted(columns, needed, source[0], |needed|);
      var rest := WantedRows(columns, needed, filters, source[1..]);
      if forall i :: 0 <= i < |filters| ==> Says(row, filters[i], true) then [row] + rest else rest
  }

  lemma MatchingSays(row: RowMap, filters: seq<Expr>)
    ensures RowMatches(row, filters) <==> forall i :: 0 <= i < |filters| ==> Says(row, filters[i], true)
  {
    hide EvalBool, Says;
    forall i | 0 <= i < |filters| ensures EvalBool(row, filters[i]) == Some(true) <==> Says(row, filters[i], true) {
      EvaluatesExactly(row, filters[i], true);
    }
  }

  lemma {:induction false} FilteredIsFront(columns: seq<ColumnSchema>, needed: seq<nat>, filters: seq<Expr>, limit: Option<nat>,
      source: seq<RowMap>, rows: seq<RowMap>)
    requires InRangeIndices(columns, needed) && !Full(limit, |rows|)
    ensures FilteredRows(columns, needed, filters, limit, source, rows).rows == Front(rows + WantedRows(columns, needed, filters, source), limit)
    decreases |source|
  {
    hide Restricted, RowMatches, Says;
    if source == [] {
      assert rows + [] == rows;
    } else {
      var row, rest := Restricted(columns, needed, source[0], |needed|), WantedRows(columns, needed, filters, source[1..]);
      MatchingSays(row, filters);
      if !RowMatches(row, filters) {
        FilteredIsFront(columns, needed, filters, limit, source[1..], rows);
      } else if Reached(limit, |rows| + 1) {
        assert (rows + ([row] + rest))[..|rows| + 1] == rows + [row];
      } else {
        assert rows + ([row] + rest) == rows + [row] + rest;
        FilteredIsFront(columns, needed, filters, limit, source[1..], rows + [row]);
      }
    }
  }

  /**
   * Refreshing a table and loading it returns, in order and up to the limit, exactly the rows of whose values every
   * filter is true.
   */
  lemma LoadReturnsWantedRows(columns: seq<ColumnSchema>, needed: seq<nat>, filters: seq<Expr>, limit: Option<nat>, source: seq<RowMap>)
    requires DistinctIds(columns) && DistinctNames(columns) && InRangeIndices(columns, needed) && Homogeneous(columns, source)
    requires forall i :: 0 <= i < |filters| ==> NoNegatedBetween(filters[i])
    ensures LoadChunks(columns, needed, filters, limit, Refreshed(columns, source, OLAP_CHUNK_ROW_TARGET, 1), true, [])
      == Ok(Front(WantedRows(columns, needed, filters, source), limit))
  {
    hide LoadChunks, Refreshed, FilteredRows, WantedRows, Homogeneous, NoNegatedBetween, Front;
    PrunedLoadIsFilter(columns, needed, filters, limit, source);
    FilteredIsFront(columns, needed, filters, limit, source, []);
    assert [] + WantedRows(columns, needed, filters, source) == WantedRows(columns, needed, filters, source);
  }

  /** The rows with an INT8 in the column for which the operator holds. */
  function RowsWhere(columns: seq<ColumnSchema>, needed: seq<nat>, name: string, op: KvCompareOp, k: i64, source: seq<RowMap>): seq<RowMap>
    requires InRangeIndices(columns, needed)
  {
    if source == [] then []
    else
      var rest, v := RowsWhere(columns, needed, name, op, k, source[1..]), RowValue(source[0], name);
      if v.Int64? && Relates(op, v.int64, k) then [Restricted(columns, needed, source[0], |needed|)] + rest else rest
  }

  /** NOT (n op k) over an INT8 column: the rows whose value is not NULL and stands to k as the complement of op says. */
  lemma NotComparisonLoads(columns: seq<ColumnSchema>, needed: seq<nat>, i: nat, op: KvCompareOp, k: i64, limit: Option<nat>, source: seq<RowMap>)
    requires DistinctIds(columns) && DistinctNames(columns) && InRangeIndices(columns, needed) && Homogeneous(columns, source)
    requires i in needed && i < |columns| && columns[i].dataType == Int64Type
    ensures LoadChunks(columns, needed, [NotExpr(Expr.Binary(Column(columns[i].name), Comparison(op), Literal(Some(Int64(k)))))], limit,
      Refreshed(columns, source, OLAP_CHUNK_ROW_TARGET, 1), true, [])
      == Ok(Front(RowsWhere(columns, needed, columns[i].name, Complement(op), k, source), limit))
  {
    hide LoadChunks, Refreshed, WantedRows, Front, RowsWhere;
    var filters := [NotExpr(Expr.Binary(Column(columns[i].name), Comparison(op), Literal(Some(Int64(k)))))];
    assert NoNegatedBetween(filters[0]);
    LoadReturnsWantedRows(columns, needed, filters, limit, source);
    WantedByNotComparison(columns, needed, i, op, k, source);
  }

  lemma {:induction false} WantedByNotComparison(columns: seq<ColumnSchema>, needed: seq<nat>, i: nat, op: KvCompareOp, k: i64, source: seq<RowMap>)
    requires DistinctNames(columns) && InRangeIndices(columns, needed) && Homogeneous(columns, source)
    requires i in needed && i < |columns| && columns[i].dataType == Int64Type
    ensures WantedRows(columns, needed, [NotExpr(Expr.Binary(Column(columns[i].name), Comparison(op), Literal(Some(Int64(k)))))], source)
      == RowsWhere(columns, needed, columns[i].name, Complement(op), k, source)
    decreases |source|
  {
    hide Restricted, FitsKind, Says, CompareValues;
    if source != [] {
      var filters := [NotExpr(Expr.Binary(Column(columns[i].name), Comparison(op), Literal(Some(Int64(k)))))];
      var row := Restricted(columns, needed, source[0], |needed|);
      assert Homogeneous(columns, source[1..]) by {
        assert forall r :: 0 <= r < |source[1..]| ==> source[1..][r] == source[r + 1];
      }
      WantedByNotComparison(columns, needed, i, op, k, source[1..]);
      assert FitsKind(columns[i], RowValue(source[0], columns[i].name));
      BigintFits(columns[i], RowValue(source[0], columns[i].name));
      RestrictedValue(columns, needed, source[0], |needed|, i);
      SaysNotComparison(row, columns[i].name, op, k);
      assert filters[0] == NotExpr(Expr.Binary(Column(columns[i].name), Comparison(op), Literal(Some(Int64(k)))));
    }
  }

  lemma BigintFits(c: ColumnSchema, v: ColumnValue)
    requires c.dataType == Int64Type && FitsKind(c, v)
    ensures v.Null? || v.Int64?
  {
  }

  lemma SaysNotComparison(row: RowMap, name: string, op: KvCompareOp, k: i64)
    requires name in row && (row[name].Null? || row[name].Int64?)
    ensures Says(row, NotExpr(Expr.Binary(Column(name), Comparison(op), Literal(Some(Int64(k))))), true)
      <==> row[name].Int64? && Relates(Complement(op), row[name].int64, k)
  {
    hide CompareValues;
    if row[name].Int64? {
      IntegersCompare(row[name], op, Int64(k));
    }
  }

  lemma {:induction false} RestrictedValue(columns: seq<ColumnSchema>, needed: seq<nat>, row: RowMap, n: nat, i: nat)
    requires n <= |needed| && InRangeIndices(columns, needed) && i < |columns| && i in needed[..n]
    ensures var name := columns[i].name; name in Restricted(columns, needed, row, n) && Restricted(columns, needed, row, n)[name] == RowValue(row, name)
    decreases n
  {
    if n > 0 && columns[needed[n - 1]].name != columns[i].name {
      assert needed[..n] == needed[..n - 1] + [needed[n - 1]];
      RestrictedValue(columns, needed, row, n - 1, i);
    }
  }
}
