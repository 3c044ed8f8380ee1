/** Loading rows from column chunks, with and without zone map pruning. */
module ChunkPruning {
  import opened Basics
  import opened Bytes
  import opened Values
  import opened Predicates
  import opened FastPredicates
  import opened SlotComparison
  import opened TopNOrder
  import opened Filters
  import opened KeyCodec
  import opened ZoneMaps

  // ---------------------------------------------------------------------------------------------
  // A matching row is never in a skipped chunk.

  /** No negated BETWEEN where the pruning test looks. */
  predicate NoNegatedBetween(e: Expr) {
    match e
    case Binary(left, AndOp, right) => NoNegatedBetween(left) && NoNegatedBetween(right)
    case Binary(left, OrOp, right) => NoNegatedBetween(left) && NoNegatedBetween(right)
    case BetweenExpr(_, _, _, negated) => !negated
    case _ => true
  }

  /** A comparison of a column with a literal that holds for the row keeps the chunk. */
  lemma ColumnKept(columns: seq<ColumnSchema>, zones: seq<Zone>, row: RowMap, name: string, op: KvCompareOp, w: Scalar)
    requires RowBounded(columns, zones, row) && name in row && CompareValues(row[name], op, w)
    ensures ColumnMayMatch(columns, zones, name, op, w)
  {
    hide Orderable, OrderableType, ValueEq, PartialCmp, ZoneMayMatch, CompareValues;
    var c := FindColumn(columns, name);
    if c.Some? && FindZone(zones, c.value.columnId).Some? {
      if Incomparable(row[name]) {
        OnlyUnequal(row[name], op, w);
        assert ZoneMayMatch(FindZone(zones, c.value.columnId).value, op, w) by { UnequalKept(FindZone(zones, c.value.columnId).value, w); }
      } else {
        ComparisonKept(FindZone(zones, c.value.columnId).value, StoredKind(c.value.dataType), row[name], op, w);
      }
    }
  }

  lemma OnlyUnequal(v: ColumnValue, op: KvCompareOp, w: Scalar)
    requires Incomparable(v) && CompareValues(v, op, w)
    ensures op == NotEq
  {
  }

  lemma UnequalKept(z: Zone, w: ColumnValue)
    ensures ZoneMayMatch(z, NotEq, w)
  {
  }

  lemma ReversedKept(columns: seq<ColumnSchema>, zones: seq<Zone>, row: RowMap, name: string, op: KvCompareOp, w: Scalar)
    requires RowBounded(columns, zones, row) && name in row && CompareValues(w, op, row[name])
    ensures ColumnMayMatch(columns, zones, name, ReverseOp(op), w)
  {
    hide Orderable, OrderableType, ValueEq, PartialCmp, ZoneMayMatch, CompareValues, BoundedBy;
    var c := FindColumn(columns, name);
    if c.Some? && FindZone(zones, c.value.columnId).Some? {
      if Incomparable(row[name]) {
        OnlyUnequalReversed(row[name], op, w);
        UnequalKept(FindZone(zones, c.value.columnId).value, w);
      } else {
        BoundedOrderable(FindZone(zones, c.value.columnId).value, StoredKind(c.value.dataType), row[name]);
        ReversedComparison(StoredKind(c.value.dataType), row[name], op, w);
        ColumnKept(columns, zones, row, name, ReverseOp(op), w);
      }
    }
  }

  lemma OnlyUnequalReversed(v: ColumnValue, op: KvCompareOp, w: Scalar)
    requires Incomparable(v) && CompareValues(w, op, v)
    ensures op == NotEq
  {
  }

  lemma BoundedOrderable(z: Zone, t: DataType, v: ColumnValue)
    requires BoundedBy(z, t, v)
    ensures Orderable(t, v)
  {
  }

  lemma CompareKept(columns: seq<ColumnSchema>, zones: seq<Zone>, row: RowMap, left: Expr, op: KvCompareOp, right: Expr)
    requires RowBounded(columns, zones, row) && EvalBool(row, Expr.Binary(left, Comparison(op), right)) == Some(true)
    ensures MayMatch(columns, zones, Expr.Binary(left, Comparison(op), right))
  {
    hide RowBounded, ColumnMayMatch, CompareValues;
    if Pair(left, right).Some? {
      ColumnKept(columns, zones, row, left.name, op, right.value.value);
    } else if Pair(right, left).Some? {
      ReversedKept(columns, zones, row, right.name, op, left.value.value);
    }
  }

  lemma BetweenKept(columns: seq<ColumnSchema>, zones: seq<Zone>, row: RowMap, inner: Expr, low: Expr, high: Expr)
    requires RowBounded(columns, zones, row) && EvalBool(row, BetweenExpr(inner, low, high, false)) == Some(true)
    ensures MayMatch(columns, zones, BetweenExpr(inner, low, high, false))
  {
    hide RowBounded, ColumnMayMatch, CompareValues;
    if Pair(inner, low).Some? {
      ColumnKept(columns, zones, row, inner.name, GtEq, low.value.value);
    }
    if Pair(inner, high).Some? {
      ColumnKept(columns, zones, row, inner.name, LtEq, high.value.value);
    }
  }

  /**
   * Pruning loses nothing: for every AND/OR tree without a negated BETWEEN, a chunk whose zones bound a row
   * that makes the filter true may match.
   */
  lemma {:induction false} MatchingRowKeepsChunk(columns: seq<ColumnSchema>, zones: seq<Zone>, row: RowMap, e: Expr)
    requires RowBounded(columns, zones, row) && NoNegatedBetween(e) && EvalBool(row, e) == Some(true)
    ensures MayMatch(columns, zones, e)
    decreases e
  {
    hide RowBounded, ColumnMayMatch, CompareValues;
    match e {
      case Binary(left, AndOp, right) =>
        MatchingRowKeepsChunk(columns, zones, row, left);
        MatchingRowKeepsChunk(columns, zones, row, right);
      case Binary(left, OrOp, right) =>
        if EvalBool(row, left) == Some(true) {
          MatchingRowKeepsChunk(columns, zones, row, left);
        } else {
          MatchingRowKeepsChunk(columns, zones, row, right);
        }
      case Binary(left, Comparison(op), right) => CompareKept(columns, zones, row, left, op, right);
      case BetweenExpr(inner, low, high, _) => BetweenKept(columns, zones, row, inner, low, high);
      case _ =>
    }
  }

  // ---------------------------------------------------------------------------------------------
  // The negated BETWEEN.

  /**
   * Exactly when a negated BETWEEN skips a chunk: its maximum reaches the low end, and its minimum is not
   * within the high end.
   */
  lemma NegatedBetweenSkips(columns: seq<ColumnSchema>, zones: seq<Zone>, name: string, low: Scalar, high: Scalar)
    ensures !MayMatch(columns, zones, BetweenExpr(Column(name), Literal(Some(low)), Literal(Some(high)), true)) <==>
      ColumnMayMatch(columns, zones, name, GtEq, low) && !ColumnMayMatch(columns, zones, name, LtEq, high)
  {
  }

  /** And then every row it holds whose value compares with the high end satisfies the filter: all of them are lost. */
  lemma NegatedBetweenLosesAll(columns: seq<ColumnSchema>, zones: seq<Zone>, row: RowMap, name: string, low: Scalar, high: Scalar)
    requires RowBounded(columns, zones, row) && name in row && !row[name].Null? && !low.Null? && !high.Null?
    requires !MayMatch(columns, zones, BetweenExpr(Column(name), Literal(Some(low)), Literal(Some(high)), true))
    ensures EvalBool(row, BetweenExpr(Column(name), Literal(Some(low)), Literal(Some(high)), true)) == Some(true)
  {
    hide RowBounded, ColumnMayMatch, CompareValues;
    NegatedBetweenSkips(columns, zones, name, low, high);
    if CompareValues(row[name], LtEq, high) {
      ColumnKept(columns, zones, row, name, LtEq, high);
    }
  }

  /** A chunk holding only 10, and NOT BETWEEN 1 AND 5: the row matches and the chunk is skipped. */
  lemma NegatedBetweenWitness()
    ensures var columns := [ColumnSchema(1, "n", Int64Type, false)];
      var rows := [map["n" := Int64(10)]];
      var e := BetweenExpr(Column("n"), Literal(Some(Int64(1))), Literal(Some(Int64(5))), true);
      EvalBool(rows[0], e) == Some(true) && !MayMatch(columns, ZonesOf(columns, rows), e)
  {
    var columns := [ColumnSchema(1, "n", Int64Type, false)];
    var rows: seq<RowMap> := [map["n" := Int64(10)]];
    var values := ColumnOf(rows, "n");
    assert values == [Int64(10)] && values[..0] == [];
    assert ZoneOf(1, values) == UpdatedZone(ZoneOf(1, []), Int64(10));
    assert ZonesOf(columns, rows)[0] == ZoneOf(1, values);
  }

  // ---------------------------------------------------------------------------------------------
  // Chunks.

  datatype ChunkMeta = ChunkMeta(chunkId: u64, rowCount: u32, zones: seq<Zone>)

  /** A chunk's metadata and its stored columns, by column id. */
  datatype Chunk = Chunk(meta: ChunkMeta, columns: map<u32, seq<ColumnValue>>)

  /** The needed columns of one row of a chunk, inserted in order; a short column reads as NULL. */
  function ChunkRow(columns: seq<ColumnSchema>, needed: seq<nat>, chunk: Chunk, r: nat, n: nat): RowMap
    requires n <= |needed| && forall k :: 0 <= k < |needed| ==> needed[k] < |columns| && columns[needed[k]].columnId in chunk.columns
  {
    if n == 0 then map[]
    else
      var c := columns[needed[n - 1]];
      var values := chunk.columns[c.columnId];
      ChunkRow(columns, needed, chunk, r, n - 1)[c.name := if r < |values| then values[r] else Null]
  }

  predicate InRangeIndices(columns: seq<ColumnSchema>, needed: seq<nat>) {
    forall k :: 0 <= k < |needed| ==> needed[k] < |columns|
  }

  predicate HasColumns(columns: seq<ColumnSchema>, needed: seq<nat>, chunk: Chunk)
    requires InRangeIndices(columns, needed)
  {
    forall k :: 0 <= k < |needed| ==> columns[needed[k]].columnId in chunk.columns
  }

  /** Enough rows: the limit is looked at after each row that matched. */
  predicate Reached(limit: Option<nat>, count: nat) {
    limit.Some? && count >= limit.value
  }

  /** The outcome of a load so far: rows, and whether it stopped at the limit. */
  datatype Loaded = Loaded(rows: seq<RowMap>, stopped: bool)

  /** Rows r, r + 1, ... of a chunk, pushed when they match. */
  function LoadChunkRows(columns: seq<ColumnSchema>, needed: seq<nat>, filters: seq<Expr>, limit: Option<nat>, chunk: Chunk, r: nat,
      rows: seq<RowMap>): Loaded
    requires InRangeIndices(columns, needed) && HasColumns(columns, needed, chunk)
    decreases chunk.meta.rowCount - r
  {
    if r >= chunk.meta.rowCount then Loaded(rows, false)
    else
      var row := ChunkRow(columns, needed, chunk, r, |needed|);
      if RowMatches(row, filters) then
        if Reached(limit, |rows| + 1) then Loaded(rows + [row], true)
        else LoadChunkRows(columns, needed, filters, limit, chunk, r + 1, rows + [row])
      else LoadChunkRows(columns, needed, filters, limit, chunk, r + 1, rows)
  }

  predicate ChunkMayMatch(columns: seq<ColumnSchema>, zones: seq<Zone>, filters: seq<Expr>) {
    forall i :: 0 <= i < |filters| ==> MayMatch(columns, zones, filters[i])
  }

  /** `load_rows_from_chunks`; without `prune`, every chunk is read. */
  function LoadChunks(columns: seq<ColumnSchema>, needed: seq<nat>, filters: seq<Expr>, limit: Option<nat>, chunks: seq<Chunk>,
      prune: bool, rows: seq<RowMap>): Result<seq<RowMap>>
    requires InRangeIndices(columns, needed)
  {
    if chunks == [] then Ok(rows)
    else if prune && !ChunkMayMatch(columns, chunks[0].meta.zones, filters) then
      LoadChunks(columns, needed, filters, limit, chunks[1..], prune, rows)
    else if !HasColumns(columns, needed, chunks[0]) then Err
    else
      var loaded := LoadChunkRows(columns, needed, filters, limit, chunks[0], 0, rows);
      if loaded.stopped then Ok(loaded.rows) else LoadChunks(columns, needed, filters, limit, chunks[1..], prune, loaded.rows)
  }

  method LoadRowsFromChunks(columns: seq<ColumnSchema>, needed: seq<nat>, filters: seq<Expr>, limit: Option<nat>, chunks: seq<Chunk>)
    returns (r: Result<seq<RowMap>>)
    requires InRangeIndices(columns, needed)
    ensures r == LoadChunks(columns, needed, filters, limit, chunks, true, [])
  {
    hide MayMatch, RowMatches, ChunkRow;
    var rows, i := [], 0;
    assert chunks[0..] == chunks;
    while i < |chunks|
      invariant 0 <= i <= |chunks|
      invariant LoadChunks(columns, needed, filters, limit, chunks, true, []) == LoadChunks(columns, needed, filters, limit, chunks[i..], true, rows)
    {
      assert chunks[i..][1..] == chunks[i + 1..];
      if ChunkMayMatch(columns, chunks[i].meta.zones, filters) {
        if !HasColumns(columns, needed, chunks[i]) {
          return Err;
        }
        ghost var before := rows;
        for k := 0 to chunks[i].meta.rowCount
          invariant LoadChunkRows(columns, needed, filters, limit, chunks[i], 0, before)
            == LoadChunkRows(columns, needed, filters, limit, chunks[i], k, rows)
        {
          var row := ChunkRow(columns, needed, chunks[i], k, |needed|);
          if RowMatches(row, filters) {
            rows := rows + [row];
            if Reached(limit, |rows|) {
              return Ok(rows);
            }
          }
        }
      }
      i := i + 1;
    }
    r := Ok(rows);
  }

  // ---------------------------------------------------------------------------------------------
  // Pruned and unpruned loads.

  /** Every row of the chunk is bounded by its zones. */
  ghost predicate ChunkBounded(columns: seq<ColumnSchema>, needed: seq<nat>, chunk: Chunk)
    requires InRangeIndices(columns, needed)
  {
    HasColumns(columns, needed, chunk) ==>
      forall r: nat {:trigger ChunkRow(columns, needed, chunk, r, |needed|)} :: r < chunk.meta.rowCount ==>
        RowBounded(columns, chunk.meta.zones, ChunkRow(columns, needed, chunk, r, |needed|))
  }

  lemma {:induction false} SkippedChunkLoadsNothing(columns: seq<ColumnSchema>, needed: seq<nat>, filters: seq<Expr>, limit: Option<nat>,
      chunk: Chunk, r: nat, rows: seq<RowMap>)
    requires InRangeIndices(columns, needed) && HasColumns(columns, needed, chunk) && ChunkBounded(columns, needed, chunk)
    requires (forall i :: 0 <= i < |filters| ==> NoNegatedBetween(filters[i])) && !ChunkMayMatch(columns, chunk.meta.zones, filters)
    ensures LoadChunkRows(columns, needed, filters, limit, chunk, r, rows) == Loaded(rows, false)
    decreases chunk.meta.rowCount - r
  {
    hide MayMatch, EvalBool, ChunkRow, RowBounded, NoNegatedBetween;
    if r < chunk.meta.rowCount {
      var row := ChunkRow(columns, needed, chunk, r, |needed|);
      assert RowBounded(columns, chunk.meta.zones, row);
      var i :| 0 <= i < |filters| && !MayMatch(columns, chunk.meta.zones, filters[i]);
      if EvalBool(row, filters[i]) == Some(true) {
        MatchingRowKeepsChunk(columns, chunk.meta.zones, row, filters[i]);
      }
      SkippedChunkLoadsNothing(columns, needed, filters, limit, chunk, r + 1, rows);
    }
  }

  /** Whenever reading every chunk succeeds, the pruned load returns the same rows, under any limit. */
  lemma {:induction false} PrunedLoadIsFullLoad(columns: seq<ColumnSchema>, needed: seq<nat>, filters: seq<Expr>, limit: Option<nat>,
      chunks: seq<Chunk>, rows: seq<RowMap>)
    requires InRangeIndices(columns, needed) && forall i :: 0 <= i < |chunks| ==> ChunkBounded(columns, needed, chunks[i])
    requires forall i :: 0 <= i < |filters| ==> NoNegatedBetween(filters[i])
    requires LoadChunks(columns, needed, filters, limit, chunks, false, rows).Ok?
    ensures LoadChunks(columns, needed, filters, limit, chunks, true, rows) == LoadChunks(columns, needed, filters, limit, chunks, false, rows)
    decreases |chunks|
  {
    hide LoadChunkRows, NoNegatedBetween, ChunkBounded, ChunkMayMatch;
    if chunks != [] {
      var loaded := LoadChunkRows(columns, needed, filters, limit, chunks[0], 0, rows);
      if !ChunkMayMatch(columns, chunks[0].meta.zones, filters) {
        SkippedChunkLoadsNothing(columns, needed, filters, limit, chunks[0], 0, rows);
      }
      if !loaded.stopped {
        PrunedLoadIsFullLoad(columns, needed, filters, limit, chunks[1..], loaded.rows);
      }
    }
  }
}
