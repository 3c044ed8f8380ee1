/** What a pushed-down predicate says about the values of a row. */
module PredicateMeaning {
  import opened Basics
  import opened Bytes
  import opened Values
  import opened Predicates
  import opened SlotComparison
  import opened CompareMeaning

  /** The predicate holds (`sense`) or fails: NOT pushed down to the comparisons. */
  predicate Holds(p: KvPredicate, row: Row, sense: bool)
    decreases p
  {
    match p
    case ColumnCompare(c, op, v) => CompareValues(row(c), op, v) == sense
    case And(parts) =>
      if sense then forall i :: 0 <= i < |parts| ==> Holds(parts[i], row, true) else exists i :: 0 <= i < |parts| && Holds(parts[i], row, false)
    case Or(parts) =>
      if sense then exists i :: 0 <= i < |parts| && Holds(parts[i], row, true) else forall i :: 0 <= i < |parts| ==> Holds(parts[i], row, false)
    case Not(inner) => Holds(inner, row, !sense)
    case IsNull(c) => (row(c) == Null) == sense
    case IsNotNull(c) => (row(c) != Null) == sense
    case Between(c, low, high, negated) =>
      ((CompareValues(row(c), GtEq, low) && CompareValues(row(c), LtEq, high)) != negated) == sense
  }

  lemma {:induction false} MatchesExactly(p: KvPredicate, row: Row, sense: bool)
    ensures Matches(p, row) == sense <==> Holds(p, row, sense)
    decreases p
  {
    hide CompareValues;
    match p {
      case And(parts) =>
        forall i | 0 <= i < |parts| ensures Matches(parts[i], row) == sense <==> Holds(parts[i], row, sense) {
          MatchesExactly(parts[i], row, sense);
        }
      case Or(parts) =>
        forall i | 0 <= i < |parts| ensures Matches(parts[i], row) == sense <==> Holds(parts[i], row, sense) {
          MatchesExactly(parts[i], row, sense);
        }
      case Not(inner) => MatchesExactly(inner, row, !sense);
      case _ =>
    }
  }

  /** NOT NOT is nothing, NOT goes through AND and OR, and every row satisfies exactly one of a predicate and its NOT. */
  lemma PredicateLaws(p: KvPredicate, q: KvPredicate, row: Row)
    ensures Matches(Not(Not(p)), row) <==> Matches(p, row)
    ensures Matches(Not(p), row) != Matches(p, row)
    ensures Matches(Not(And([p, q])), row) <==> Matches(Or([Not(p), Not(q)]), row)
    ensures Matches(Not(Or([p, q])), row) <==> Matches(And([Not(p), Not(q)]), row)
  {
    BothOf(p, q, row);
    BothOf(Not(p), Not(q), row);
  }

  lemma BothOf(p: KvPredicate, q: KvPredicate, row: Row)
    ensures Matches(And([p, q]), row) <==> Matches(p, row) && Matches(q, row)
    ensures Matches(Or([p, q]), row) <==> Matches(p, row) || Matches(q, row)
  {
    assert [p, q][0] == p && [p, q][1] == q;
  }

  /** On an INT8 column: comparisons are those of numbers, NULL fails them all, and BETWEEN is both its bounds. */
  lemma IntegerPredicates(c: nat, op: KvCompareOp, low: i64, high: i64, row: Row)
    requires row(c).Null? || row(c).Int64?
    ensures Matches(ColumnCompare(c, op, Int64(low)), row) <==> row(c).Int64? && Relates(op, row(c).int64, low)
    ensures Matches(Between(c, Int64(low), Int64(high), false), row) <==> row(c).Int64? && low <= row(c).int64 <= high
    ensures Matches(Between(c, Int64(low), Int64(high), true), row) <==> row(c).Null? || row(c).int64 < low || row(c).int64 > high
    ensures Matches(IsNull(c), row) <==> row(c) == Null
    ensures Matches(IsNotNull(c), row) <==> row(c) != Null
  {
    hide CompareValues;
    if row(c).Int64? {
      IntegersCompare(row(c), op, Int64(low));
      IntegersCompare(row(c), GtEq, Int64(low));
      IntegersCompare(row(c), LtEq, Int64(high));
    } else {
      ComplementExactly(row(c), op, Int64(low));
      ComplementExactly(row(c), GtEq, Int64(low));
    }
  }
}
