/** Loading chunks under NOT BETWEEN: exactly when pruning loses rows. */
module NegatedBetween {
  import opened Basics
  import opened Bytes
  import opened Values
  import opened Predicates
  import opened Filters
  import opened ZoneMaps
  import opened ChunkPruning

  // ---------------------------------------------------------------------------------------------
  // A load is the front part of all matching rows.

  /** The rows r, r + 1, ... of a chunk that match. */
  function MatchedRows(columns: seq<ColumnSchema>, needed: seq<nat>, filters: seq<Expr>, chunk: Chunk, r: nat): seq<RowMap>
    requires InRangeIndices(columns, needed) && HasColumns(columns, needed, chunk)
    decreases chunk.meta.rowCount - r
  {
    if r >= chunk.meta.rowCount then []
    else
      var row := ChunkRow(columns, needed, chunk, r, |needed|);
      (if RowMatches(row, filters) then [row] else []) + MatchedRows(columns, needed, filters, chunk, r + 1)
  }

  ghost predicate Complete(columns: seq<ColumnSchema>, needed: seq<nat>, chunks: seq<Chunk>) {
    InRangeIndices(columns, needed) && forall k :: 0 <= k < |chunks| ==> HasColumns(columns, needed, chunks[k])
  }

  /** The matching rows of all chunks, or of those that pruning keeps. */
  function AllRows(columns: seq<ColumnSchema>, needed: seq<nat>, filters: seq<Expr>, chunks: seq<Chunk>, prune: bool): seq<RowMap>
    requires Complete(columns, needed, chunks)
  {
    if chunks == [] then []
    else
      var rest := AllRows(columns, needed, filters, chunks[1..], prune);
      if prune && !ChunkMayMatch(columns, chunks[0].meta.zones, filters) then rest
      else MatchedRows(columns, needed, filters, chunks[0], 0) + rest
  }

  /** The load stops at the first row that fills the limit: at one row even when the limit is none. */
  function Capacity(limit: Option<nat>): (n: Option<nat>)
    ensures n.Some? ==> n.value > 0
  {
    match limit
    case None => None
    case Some(n) => Some(if n == 0 then 1 else n)
  }

  predicate Full(limit: Option<nat>, count: nat) {
    Capacity(limit).Some? && count >= Capacity(limit).value
  }

  function Front(rows: seq<RowMap>, limit: Option<nat>): seq<RowMap> {
    if Full(limit, |rows|) then rows[..Capacity(limit).value] else rows
  }

  lemma {:induction false} ChunkLoadIsFront(columns: seq<ColumnSchema>, needed: seq<nat>, filters: seq<Expr>, limit: Option<nat>, chunk: Chunk,
      r: nat, rows: seq<RowMap>)
    requires InRangeIndices(columns, needed) && HasColumns(columns, needed, chunk) && !Full(limit, |rows|)
    ensures var all := rows + MatchedRows(columns, needed, filters, chunk, r);
      LoadChunkRows(columns, needed, filters, limit, chunk, r, rows) == Loaded(Front(all, limit), Full(limit, |all|))
    decreases chunk.meta.rowCount - r
  {
    hide ChunkRow, RowMatches;
    if r < chunk.meta.rowCount {
      var row := ChunkRow(columns, needed, chunk, r, |needed|);
      var rest := MatchedRows(columns, needed, filters, chunk, r + 1);
      if !RowMatches(row, filters) {
        assert [] + rest == rest;
        ChunkLoadIsFront(columns, needed, filters, limit, chunk, r + 1, rows);
      } else if Reached(limit, |rows| + 1) {
        assert (rows + ([row] + rest))[..|rows| + 1] == rows + [row];
      } else {
        assert rows + ([row] + rest) == rows + [row] + rest;
        ChunkLoadIsFront(columns, needed, filters, limit, chunk, r + 1, rows + [row]);
      }
    } else {
      assert rows + [] == rows;
    }
  }

  /** Pruned or not, a load returns the front part of its chunks' matching rows. */
  lemma {:induction false} LoadIsFront(columns: seq<ColumnSchema>, needed: seq<nat>, filters: seq<Expr>, limit: Option<nat>, chunks: seq<Chunk>,
      prune: bool, rows: seq<RowMap>)
    requires Complete(columns, needed, chunks) && !Full(limit, |rows|)
    ensures LoadChunks(columns, needed, filters, limit, chunks, prune, rows)
      == Ok(Front(rows + AllRows(columns, needed, filters, chunks, prune), limit))
    decreases |chunks|
  {
    hide LoadChunkRows, MatchedRows, ChunkMayMatch;
    if chunks == [] {
      assert rows + [] == rows;
    } else if prune && !ChunkMayMatch(columns, chunks[0].meta.zones, filters) {
      LoadIsFront(columns, needed, filters, limit, chunks[1..], prune, rows);
    } else {
      var first, rest := MatchedRows(columns, needed, filters, chunks[0], 0), AllRows(columns, needed, filters, chunks[1..], prune);
      ChunkLoadIsFront(columns, needed, filters, limit, chunks[0], 0, rows);
      assert rows + (first + rest) == rows + first + rest;
      if Full(limit, |rows + first|) {
        assert (rows + first + rest)[..Capacity(limit).value] == (rows + first)[..Capacity(limit).value];
      } else {
        LoadIsFront(columns, needed, filters, limit, chunks[1..], prune, rows + first);
      }
    }
  }

  // ---------------------------------------------------------------------------------------------
  // Chunks that lose rows.

  function NotBetween(name: string, low: Scalar, high: Scalar): Expr {
    BetweenExpr(Column(name), Literal(Some(low)), Literal(Some(high)), true)
  }

  /** The zone admits values from the lower limit on, and none up to the upper limit. */
  predicate BeyondZone(columns: seq<ColumnSchema>, chunk: Chunk, name: string, low: Scalar, high: Scalar) {
    ColumnMayMatch(columns, chunk.meta.zones, name, GtEq, low) && !ColumnMayMatch(columns, chunk.meta.zones, name, LtEq, high)
  }

  /** Some row of the chunk has a value in the column. */
  predicate HoldsValue(columns: seq<ColumnSchema>, needed: seq<nat>, chunk: Chunk, name: string)
    requires InRangeIndices(columns, needed) && HasColumns(columns, needed, chunk)
  {
    exists r :: 0 <= r < chunk.meta.rowCount && HasValue(ChunkRow(columns, needed, chunk, r, |needed|), name)
  }

  predicate HasValue(row: RowMap, name: string) {
    name in row && !row[name].Null?
  }

  lemma OneFilter(columns: seq<ColumnSchema>, chunk: Chunk, row: RowMap, name: string, low: Scalar, high: Scalar)
    ensures ChunkMayMatch(columns, chunk.meta.zones, [NotBetween(name, low, high)]) <==> !BeyondZone(columns, chunk, name, low, high)
    ensures RowMatches(row, [NotBetween(name, low, high)]) <==> EvalBool(row, NotBetween(name, low, high)) == Some(true)
    ensures RowMatches(row, [NotBetween(name, low, high)]) ==> HasValue(row, name)
  {
    hide ColumnMayMatch, CompareValues;
    var filters := [NotBetween(name, low, high)];
    assert filters[0] == NotBetween(name, low, high);
    NegatedBetweenSkips(columns, chunk.meta.zones, name, low, high);
  }

  /** In a skipped chunk, the rows that match are exactly those with a value in the column. */
  lemma SkippedRowMatches(columns: seq<ColumnSchema>, needed: seq<nat>, chunk: Chunk, r: nat, name: string, low: Scalar, high: Scalar)
    requires InRangeIndices(columns, needed) && HasColumns(columns, needed, chunk) && ChunkBounded(columns, needed, chunk)
    requires BeyondZone(columns, chunk, name, low, high) && !low.Null? && !high.Null? && r < chunk.meta.rowCount
    ensures var row := ChunkRow(columns, needed, chunk, r, |needed|);
      RowMatches(row, [NotBetween(name, low, high)]) <==> HasValue(row, name)
  {
    hide ColumnMayMatch, CompareValues, EvalBool, RowBounded, ChunkRow, RowMatches;
    var row := ChunkRow(columns, needed, chunk, r, |needed|);
    OneFilter(columns, chunk, row, name, low, high);
    if HasValue(row, name) {
      assert RowBounded(columns, chunk.meta.zones, row);
      NegatedBetweenSkips(columns, chunk.meta.zones, name, low, high);
      NegatedBetweenLosesAll(columns, chunk.meta.zones, row, name, low, high);
    }
  }

  predicate NoneMatch(columns: seq<ColumnSchema>, needed: seq<nat>, filters: seq<Expr>, chunk: Chunk, r: nat)
    requires InRangeIndices(columns, needed) && HasColumns(columns, needed, chunk)
  {
    forall i {:trigger ChunkRow(columns, needed, chunk, i, |needed|)} :: r <= i < chunk.meta.rowCount ==>
      !RowMatches(ChunkRow(columns, needed, chunk, i, |needed|), filters)
  }

  lemma {:induction false} NoMatchFrom(columns: seq<ColumnSchema>, needed: seq<nat>, filters: seq<Expr>, chunk: Chunk, r: nat)
    requires InRangeIndices(columns, needed) && HasColumns(columns, needed, chunk)
    ensures MatchedRows(columns, needed, filters, chunk, r) == [] <==> NoneMatch(columns, needed, filters, chunk, r)
    decreases chunk.meta.rowCount - r
  {
    hide ChunkRow, RowMatches;
    if r < chunk.meta.rowCount {
      NoMatchFrom(columns, needed, filters, chunk, r + 1);
      var row, rest := ChunkRow(columns, needed, chunk, r, |needed|), MatchedRows(columns, needed, filters, chunk, r + 1);
      assert MatchedRows(columns, needed, filters, chunk, r) == (if RowMatches(row, filters) then [row] else []) + rest;
      assert |[row] + rest| == 1 + |rest| && [] + rest == rest;
      assert NoneMatch(columns, needed, filters, chunk, r) <==>
        !RowMatches(row, filters) && NoneMatch(columns, needed, filters, chunk, r + 1);
    }
  }

  lemma SkippedChunkLosesValues(columns: seq<ColumnSchema>, needed: seq<nat>, chunk: Chunk, name: string, low: Scalar, high: Scalar)
    requires InRangeIndices(columns, needed) && HasColumns(columns, needed, chunk) && ChunkBounded(columns, needed, chunk)
    requires BeyondZone(columns, chunk, name, low, high) && !low.Null? && !high.Null?
    ensures MatchedRows(columns, needed, [NotBetween(name, low, high)], chunk, 0) != [] <==> HoldsValue(columns, needed, chunk, name)
  {
    hide BeyondZone, ChunkBounded, ChunkRow, RowMatches, HasValue;
    var filters := [NotBetween(name, low, high)];
    NoMatchFrom(columns, needed, filters, chunk, 0);
    forall r: nat | r < chunk.meta.rowCount
      ensures RowMatches(ChunkRow(columns, needed, chunk, r, |needed|), filters) <==> HasValue(ChunkRow(columns, needed, chunk, r, |needed|), name)
    {
      SkippedRowMatches(columns, needed, chunk, r, name, low, high);
    }
    if HoldsValue(columns, needed, chunk, name) {
      var r :| 0 <= r < chunk.meta.rowCount && HasValue(ChunkRow(columns, needed, chunk, r, |needed|), name);
      assert RowMatches(ChunkRow(columns, needed, chunk, r, |needed|), filters);
    } else {
      forall i | 0 <= i < chunk.meta.rowCount
        ensures !RowMatches(ChunkRow(columns, needed, chunk, i, |needed|), filters)
      {
        assert !HasValue(ChunkRow(columns, needed, chunk, i, |needed|), name);
      }
    }
  }

  // ---------------------------------------------------------------------------------------------
  // Loads that lose rows.

  /** Pruning skips the chunk, which holds matching rows. */
  predicate Loses(columns: seq<ColumnSchema>, needed: seq<nat>, filters: seq<Expr>, chunk: Chunk)
    requires InRangeIndices(columns, needed) && HasColumns(columns, needed, chunk)
  {
    !ChunkMayMatch(columns, chunk.meta.zones, filters) && MatchedRows(columns, needed, filters, chunk, 0) != []
  }

  lemma {:induction false} NoLoss(columns: seq<ColumnSchema>, needed: seq<nat>, filters: seq<Expr>, chunks: seq<Chunk>)
    requires Complete(columns, needed, chunks) && forall k :: 0 <= k < |chunks| ==> !Loses(columns, needed, filters, chunks[k])
    ensures AllRows(columns, needed, filters, chunks, true) == AllRows(columns, needed, filters, chunks, false)
    decreases |chunks|
  {
    hide MatchedRows, ChunkMayMatch;
    if chunks != [] {
      NoLoss(columns, needed, filters, chunks[1..]);
    }
  }

  lemma {:induction false} RowsOfConcat(columns: seq<ColumnSchema>, needed: seq<nat>, filters: seq<Expr>, a: seq<Chunk>, b: seq<Chunk>, prune: bool)
    requires Complete(columns, needed, a) && Complete(columns, needed, b)
    ensures Complete(columns, needed, a + b)
    ensures AllRows(columns, needed, filters, a + b, prune) == AllRows(columns, needed, filters, a, prune) + AllRows(columns, needed, filters, b, prune)
    decreases |a|
  {
    hide MatchedRows, ChunkMayMatch;
    if a == [] {
      assert a + b == b;
    } else {
      assert (a + b)[1..] == a[1..] + b && (a + b)[0] == a[0];
      RowsOfConcat(columns, needed, filters, a[1..], b, prune);
      var first := MatchedRows(columns, needed, filters, a[0], 0);
      var rest, others := AllRows(columns, needed, filters, a[1..], prune), AllRows(columns, needed, filters, b, prune);
      assert first + rest + others == first + (rest + others);
    }
  }

  /** What pruning keeps is among all rows, and no more of it. */
  lemma {:induction false} KeptAmongAll(columns: seq<ColumnSchema>, needed: seq<nat>, filters: seq<Expr>, chunks: seq<Chunk>)
    requires Complete(columns, needed, chunks)
    ensures var kept, all := AllRows(columns, needed, filters, chunks, true), AllRows(columns, needed, filters, chunks, false);
      |kept| <= |all| && forall row :: row in kept ==> row in all
    decreases |chunks|
  {
    hide MatchedRows, ChunkMayMatch;
    if chunks != [] {
      KeptAmongAll(columns, needed, filters, chunks[1..]);
    }
  }

  ghost predicate NoDuplicates(rows: seq<RowMap>) {
    forall i, j :: 0 <= i < j < |rows| ==> rows[i] != rows[j]
  }

  /** The load gets as far as chunk `k`: the matching rows before it leave the limit open. */
  predicate Reaches(columns: seq<ColumnSchema>, needed: seq<nat>, filters: seq<Expr>, limit: Option<nat>, chunks: seq<Chunk>, k: nat)
    requires k <= |chunks| && Complete(columns, needed, chunks[..k])
  {
    !Full(limit, |AllRows(columns, needed, filters, chunks[..k], false)|)
  }

  /** The load gets as far as a chunk that loses rows. */
  ghost predicate LossReached(columns: seq<ColumnSchema>, needed: seq<nat>, filters: seq<Expr>, limit: Option<nat>, chunks: seq<Chunk>)
    requires Complete(columns, needed, chunks)
  {
    exists k :: 0 <= k < |chunks| && Loses(columns, needed, filters, chunks[k]) && Reaches(columns, needed, filters, limit, chunks, k)
  }

  /** The three parts of a load around chunk `k`. */
  lemma RowsAround(columns: seq<ColumnSchema>, needed: seq<nat>, filters: seq<Expr>, chunks: seq<Chunk>, k: nat, prune: bool)
    requires Complete(columns, needed, chunks) && k < |chunks|
    ensures Complete(columns, needed, chunks[..k]) && Complete(columns, needed, chunks[k + 1..])
    ensures AllRows(columns, needed, filters, chunks, prune) ==
      AllRows(columns, needed, filters, chunks[..k], prune)
        + ((if prune && !ChunkMayMatch(columns, chunks[k].meta.zones, filters) then [] else MatchedRows(columns, needed, filters, chunks[k], 0))
           + AllRows(columns, needed, filters, chunks[k + 1..], prune))
  {
    hide MatchedRows, ChunkMayMatch;
    var back := chunks[k..];
    assert chunks == chunks[..k] + back && back[1..] == chunks[k + 1..];
    RowsOfConcat(columns, needed, filters, chunks[..k], back, prune);
  }

  /** Two lists that part at position |p|: fronts of them differ there, if the front reaches it and nothing repeats. */
  lemma FrontsDiffer(p: seq<RowMap>, m: seq<RowMap>, rest: seq<RowMap>, kept: seq<RowMap>, limit: Option<nat>)
    requires m != [] && !Full(limit, |p|) && |kept| <= |rest| && forall row :: row in kept ==> row in rest
    requires limit.Some? ==> NoDuplicates(p + (m + rest))
    ensures Front(p + kept, limit) != Front(p + (m + rest), limit)
  {
    var all, some := p + (m + rest), p + kept;
    if limit.Some? && kept != [] {
      assert some[|p|] == kept[0] && all[|p|] == m[0];
      assert kept[0] in rest;
      var j :| 0 <= j < |rest| && rest[j] == kept[0];
      assert all[|p| + |m| + j] == kept[0];
      assert Front(some, limit)[|p|] == some[|p|] && Front(all, limit)[|p|] == all[|p|];
    }
  }

  /**
   * For any filters and any chunks: with no limit, or when no two matching rows are equal, pruning changes the
   * outcome of a load exactly when the load reaches a chunk that it skips and that holds matching rows.
   */
  lemma PruningLosesExactly(columns: seq<ColumnSchema>, needed: seq<nat>, filters: seq<Expr>, limit: Option<nat>, chunks: seq<Chunk>)
    requires Complete(columns, needed, chunks)
    ensures LoadChunks(columns, needed, filters, limit, chunks, true, []) != LoadChunks(columns, needed, filters, limit, chunks, false, []) ==>
      LossReached(columns, needed, filters, limit, chunks)
    ensures limit.None? || NoDuplicates(AllRows(columns, needed, filters, chunks, false)) ==>
      LossReached(columns, needed, filters, limit, chunks) ==>
        LoadChunks(columns, needed, filters, limit, chunks, true, []) != LoadChunks(columns, needed, filters, limit, chunks, false, [])
  {
    hide Loses, LoadChunks, AllRows, Front;
    LoadIsFront(columns, needed, filters, limit, chunks, true, []);
    LoadIsFront(columns, needed, filters, limit, chunks, false, []);
    var kept, all := AllRows(columns, needed, filters, chunks, true), AllRows(columns, needed, filters, chunks, false);
    assert [] + kept == kept && [] + all == all;
    if exists k :: 0 <= k < |chunks| && Loses(columns, needed, filters, chunks[k]) {
      var k := FirstLoss(columns, needed, filters, chunks);
      FirstLossDecides(columns, needed, filters, limit, chunks, k);
      forall i | k <= i < |chunks| && Reaches(columns, needed, filters, limit, chunks, i)
        ensures Reaches(columns, needed, filters, limit, chunks, k)
      {
        PrefixShorter(columns, needed, filters, chunks, k, i);
      }
    } else {
      NoLoss(columns, needed, filters, chunks);
    }
  }

  lemma {:induction false} FirstLoss(columns: seq<ColumnSchema>, needed: seq<nat>, filters: seq<Expr>, chunks: seq<Chunk>) returns (k: nat)
    requires Complete(columns, needed, chunks) && exists i :: 0 <= i < |chunks| && Loses(columns, needed, filters, chunks[i])
    ensures k < |chunks| && Loses(columns, needed, filters, chunks[k])
    ensures forall i :: 0 <= i < k ==> !Loses(columns, needed, filters, chunks[i])
    decreases |chunks|
  {
    hide Loses;
    k := 0;
    while !Loses(columns, needed, filters, chunks[k])
      invariant k < |chunks| && forall i :: 0 <= i < k ==> !Loses(columns, needed, filters, chunks[i])
      decreases |chunks| - k
    {
      k := k + 1;
    }
  }

  lemma PrefixShorter(columns: seq<ColumnSchema>, needed: seq<nat>, filters: seq<Expr>, chunks: seq<Chunk>, k: nat, i: nat)
    requires Complete(columns, needed, chunks) && k <= i <= |chunks|
    ensures |AllRows(columns, needed, filters, chunks[..k], false)| <= |AllRows(columns, needed, filters, chunks[..i], false)|
  {
    hide AllRows;
    assert chunks[..i] == chunks[..k] + chunks[k..i];
    RowsOfConcat(columns, needed, filters, chunks[..k], chunks[k..i], false);
  }

  /** At the first chunk that loses rows, the outcomes part if the load gets there, and agree if it does not. */
  lemma FirstLossDecides(columns: seq<ColumnSchema>, needed: seq<nat>, filters: seq<Expr>, limit: Option<nat>, chunks: seq<Chunk>, k: nat)
    requires Complete(columns, needed, chunks) && k < |chunks| && Loses(columns, needed, filters, chunks[k])
    requires forall i :: 0 <= i < k ==> !Loses(columns, needed, filters, chunks[i])
    ensures var kept, all := AllRows(columns, needed, filters, chunks, true), AllRows(columns, needed, filters, chunks, false);
      if Reaches(columns, needed, filters, limit, chunks, k)
      then (limit.None? || NoDuplicates(all)) ==> Front(kept, limit) != Front(all, limit)
      else Front(kept, limit) == Front(all, limit)
  {
    hide AllRows, MatchedRows, ChunkMayMatch;
    RowsAround(columns, needed, filters, chunks, k, true);
    RowsAround(columns, needed, filters, chunks, k, false);
    NoLoss(columns, needed, filters, chunks[..k]);
    KeptAmongAll(columns, needed, filters, chunks[k + 1..]);
    var p, m := AllRows(columns, needed, filters, chunks[..k], false), MatchedRows(columns, needed, filters, chunks[k], 0);
    var rest, left := AllRows(columns, needed, filters, chunks[k + 1..], false), AllRows(columns, needed, filters, chunks[k + 1..], true);
    assert [] + left == left;
    if Full(limit, |p|) {
      assert (p + left)[..Capacity(limit).value] == (p + (m + rest))[..Capacity(limit).value];
    } else if limit.None? || NoDuplicates(p + (m + rest)) {
      FrontsDiffer(p, m, rest, left, limit);
    }
  }

  /**
   * Under one NOT BETWEEN with limits that are not NULL, over chunks whose zones bound their rows: the pruned load
   * differs from the unpruned one exactly when the load reaches a chunk whose zone lies beyond the upper limit and
   * not below the lower one, and that holds a value in the column. With a limit on the number of rows, two equal
   * rows could hide the loss, so the rows must differ from each other.
   */
  lemma NegatedBetweenLosesExactly(columns: seq<ColumnSchema>, needed: seq<nat>, name: string, low: Scalar, high: Scalar, limit: Option<nat>,
      chunks: seq<Chunk>)
    requires Complete(columns, needed, chunks) && forall k :: 0 <= k < |chunks| ==> ChunkBounded(columns, needed, chunks[k])
    requires !low.Null? && !high.Null?
    requires limit.None? || NoDuplicates(AllRows(columns, needed, [NotBetween(name, low, high)], chunks, false))
    ensures var filters := [NotBetween(name, low, high)];
      LoadChunks(columns, needed, filters, limit, chunks, true, []) != LoadChunks(columns, needed, filters, limit, chunks, false, []) <==>
        exists k :: 0 <= k < |chunks| && BeyondZone(columns, chunks[k], name, low, high) && HoldsValue(columns, needed, chunks[k], name)
          && Reaches(columns, needed, filters, limit, chunks, k)
  {
    hide LoadChunks, AllRows, BeyondZone, HoldsValue, Reaches, MatchedRows, ChunkMayMatch, ChunkBounded, NoDuplicates;
    var filters := [NotBetween(name, low, high)];
    PruningLosesExactly(columns, needed, filters, limit, chunks);
    forall k | 0 <= k < |chunks|
      ensures Loses(columns, needed, filters, chunks[k]) <==>
        BeyondZone(columns, chunks[k], name, low, high) && HoldsValue(columns, needed, chunks[k], name)
    {
      OneFilter(columns, chunks[k], map[], name, low, high);
      if BeyondZone(columns, chunks[k], name, low, high) {
        SkippedChunkLosesValues(columns, needed, chunks[k], name, low, high);
      }
    }
  }

  const TEN_COLUMN := [ColumnSchema(1, "n", Int64Type, false)]
  const TEN_ZONE := Zone(1, 0, Some(Int64(10)), Some(Int64(10)))

  function TenChunk(chunkId: u64, zones: seq<Zone>): Chunk {
    Chunk(ChunkMeta(chunkId, 1, zones), map[1 := [Int64(10)]])
  }

  lemma TenSkips(zones: seq<Zone>)
    requires zones == [] || zones == [TEN_ZONE]
    ensures ChunkMayMatch(TEN_COLUMN, zones, [NotBetween("n", Int64(1), Int64(5))]) <==> zones == []
  {
    OneFilter(TEN_COLUMN, TenChunk(0, zones), map[], "n", Int64(1), Int64(5));
  }

  /** A chunk whose one row holds 10: NOT BETWEEN 1 AND 5 matches the row, and skips the chunk by its zone. */
  lemma TenMatches(chunkId: u64, zones: seq<Zone>)
    ensures MatchedRows(TEN_COLUMN, [0], [NotBetween("n", Int64(1), Int64(5))], TenChunk(chunkId, zones), 0) == [map["n" := Int64(10)]]
  {
    var chunk, row: RowMap := TenChunk(chunkId, zones), map["n" := Int64(10)];
    assert ChunkRow(TEN_COLUMN, [0], chunk, 0, 0) == map[];
    assert ChunkRow(TEN_COLUMN, [0], chunk, 0, 1) == row;
    assert RowMatches(row, [NotBetween("n", Int64(1), Int64(5))]) by { OneFilter(TEN_COLUMN, chunk, row, "n", Int64(1), Int64(5)); }
    hide RowMatches, ChunkRow, NotBetween;
    assert MatchedRows(TEN_COLUMN, [0], [NotBetween("n", Int64(1), Int64(5))], chunk, 1) == [];
  }

  /** The rows must differ: with a limit of one row, a second chunk without zones makes up for the row that was lost. */
  lemma EqualRowsHideLoss()
    ensures var filters, chunks := [NotBetween("n", Int64(1), Int64(5))], [TenChunk(0, [TEN_ZONE]), TenChunk(1, [])];
      && Complete(TEN_COLUMN, [0], chunks)
      && Loses(TEN_COLUMN, [0], filters, chunks[0]) && Reaches(TEN_COLUMN, [0], filters, Some(1), chunks, 0)
      && LoadChunks(TEN_COLUMN, [0], filters, Some(1), chunks, true, []) == LoadChunks(TEN_COLUMN, [0], filters, Some(1), chunks, false, [])
  {
    hide MatchedRows, ChunkMayMatch, LoadChunks;
    var filters, chunks := [NotBetween("n", Int64(1), Int64(5))], [TenChunk(0, [TEN_ZONE]), TenChunk(1, [])];
    TenSkips([TEN_ZONE]);
    TenSkips([]);
    TenMatches(0, [TEN_ZONE]);
    TenMatches(1, []);
    assert chunks[..0] == [] && chunks[1..] == [TenChunk(1, [])] && chunks[1..][1..] == [];
    var row: RowMap := map["n" := Int64(10)];
    assert AllRows(TEN_COLUMN, [0], filters, chunks[1..], true) == AllRows(TEN_COLUMN, [0], filters, chunks[1..], false) == [row];
    assert AllRows(TEN_COLUMN, [0], filters, chunks, true) == [row] && AllRows(TEN_COLUMN, [0], filters, chunks, false) == [row] + [row];
    assert [] + [row] == [row] && ([] + ([row] + [row]))[..1] == [row];
    LoadIsFront(TEN_COLUMN, [0], filters, Some(1), chunks, true, []);
    LoadIsFront(TEN_COLUMN, [0], filters, Some(1), chunks, false, []);
  }
}
