/** Building column chunks from rows, and reading the rows back from them. */
module OlapRefresh {
  import opened Basics
  import opened Bytes
  import opened Values
  import opened Predicates
  import opened TopNOrder
  import opened Filters
  import opened KeyCodec
  import opened ZoneMaps
  import opened ChunkPruning

  const OLAP_CHUNK_ROW_TARGET: nat := 1024

  /** The columns of a chunk, stored by id in schema order. */
  function StoredColumns(columns: seq<ColumnSchema>, rows: seq<RowMap>, n: nat): (r: map<u32, seq<ColumnValue>>)
    requires n <= |columns|
    ensures forall i :: 0 <= i < n ==> columns[i].columnId in r
  {
    if n == 0 then map[] else StoredColumns(columns, rows, n - 1)[columns[n - 1].columnId := ColumnOf(rows, columns[n - 1].name)]
  }

  function ChunkOf(columns: seq<ColumnSchema>, rows: seq<RowMap>, id: nat): Chunk {
    Chunk(ChunkMeta(id % 0x1_0000_0000_0000_0000, |rows| % 0x1_0000_0000, ZonesOf(columns, rows)), StoredColumns(columns, rows, |columns|))
  }

  /** `rows.chunks(target)`, numbered from `id`. */
  function Refreshed(columns: seq<ColumnSchema>, rows: seq<RowMap>, target: nat, id: nat): seq<Chunk>
    requires target > 0
    decreases |rows|
  {
    if rows == [] then []
    else if |rows| <= target then [ChunkOf(columns, rows, id)]
    else [ChunkOf(columns, rows[..target], id)] + Refreshed(columns, rows[target..], target, id + 1)
  }

  method BuildChunk(columns: seq<ColumnSchema>, rows: seq<RowMap>, id: nat) returns (chunk: Chunk)
    ensures chunk == ChunkOf(columns, rows, id)
  {
    hide ZonesOf;
    var zones := ZoneMapsForRows(columns, rows);
    var stored: map<u32, seq<ColumnValue>> := map[];
    for c := 0 to |columns|
      invariant stored == StoredColumns(columns, rows, c)
    {
      stored := stored[columns[c].columnId := ColumnOf(rows, columns[c].name)];
    }
    chunk := Chunk(ChunkMeta(id % 0x1_0000_0000_0000_0000, |rows| % 0x1_0000_0000, zones[..]), stored);
  }

  /** The chunk loop of `refresh_olap_storage_at`. */
  method RefreshChunks(columns: seq<ColumnSchema>, rows: seq<RowMap>) returns (chunks: seq<Chunk>)
    ensures chunks == Refreshed(columns, rows, OLAP_CHUNK_ROW_TARGET, 1)
  {
    hide ChunkOf;
    chunks := [];
    var rest, id := rows, 1;
    while rest != []
      invariant id >= 1 && chunks + Refreshed(columns, rest, OLAP_CHUNK_ROW_TARGET, id) == Refreshed(columns, rows, OLAP_CHUNK_ROW_TARGET, 1)
      decreases |rest|
    {
      var size := if |rest| <= OLAP_CHUNK_ROW_TARGET then |rest| else OLAP_CHUNK_ROW_TARGET;
      assert |rest| <= OLAP_CHUNK_ROW_TARGET ==> rest[..size] == rest;
      var chunk := BuildChunk(columns, rest[..size], id);
      assert Refreshed(columns, rest, OLAP_CHUNK_ROW_TARGET, id) == [chunk] + Refreshed(columns, rest[size..], OLAP_CHUNK_ROW_TARGET, id + 1);
      assert chunks + ([chunk] + Refreshed(columns, rest[size..], OLAP_CHUNK_ROW_TARGET, id + 1))
        == chunks + [chunk] + Refreshed(columns, rest[size..], OLAP_CHUNK_ROW_TARGET, id + 1);
      chunks := chunks + [chunk];
      rest := rest[size..];
      id := id + 1;
    }
    assert chunks + [] == chunks;
  }

  // ---------------------------------------------------------------------------------------------
  // What a refresh stores.

  lemma {:induction false} StoredColumn(columns: seq<ColumnSchema>, rows: seq<RowMap>, n: nat, k: nat)
    requires DistinctIds(columns) && k < n <= |columns|
    ensures StoredColumns(columns, rows, n)[columns[k].columnId] == ColumnOf(rows, columns[k].name)
    decreases n
  {
    if k < n - 1 {
      StoredColumn(columns, rows, n - 1, k);
    }
  }

  /** The rows that go into chunk `i`. */
  function Part(rows: seq<RowMap>, target: nat, i: nat): seq<RowMap>
    requires i * target <= |rows|
  {
    rows[i * target..if (i + 1) * target <= |rows| then (i + 1) * target else |rows|]
  }

  lemma {:induction false} ChunkParts(columns: seq<ColumnSchema>, rows: seq<RowMap>, target: nat, id: nat, i: nat)
    requires target > 0 && i < |Refreshed(columns, rows, target, id)|
    ensures (|Refreshed(columns, rows, target, id)| - 1) * target < |rows| <= |Refreshed(columns, rows, target, id)| * target
    ensures i * target < |rows| && Refreshed(columns, rows, target, id)[i] == ChunkOf(columns, Part(rows, target, i), id + i)
    decreases |rows|
  {
    hide ChunkOf, Part;
    var n := |Refreshed(columns, rows, target, id)|;
    FirstPart(rows, target);
    if |rows| > target {
      var rest := rows[target..];
      ChunkParts(columns, rest, target, id + 1, if i > 0 then i - 1 else 0);
      OneMore(n - 1, target);
      OneMore(n - 2, target);
      if i > 0 {
        OneMore(i - 1, target);
        NextPart(rows, target, i);
      }
    }
  }

  lemma OneMore(n: nat, target: nat)
    ensures (n + 1) * target == n * target + target
  {
  }

  lemma FirstPart(rows: seq<RowMap>, target: nat)
    ensures Part(rows, target, 0) == if |rows| <= target then rows else rows[..target]
  {
  }

  lemma NextPart(rows: seq<RowMap>, target: nat, i: nat)
    requires i > 0 && i * target <= |rows| && target <= |rows| && (i - 1) * target <= |rows[target..]|
    ensures Part(rows, target, i) == Part(rows[target..], target, i - 1)
  {
    OneMore(i - 1, target);
    OneMore(i, target);
  }

  /**
   * Chunk `i` of a refresh, of as many as the rows need at 1024 each: it has the next number, the number of its rows, and
   * under the id of every column the values of its rows in order.
   */
  lemma ChunkHolds(columns: seq<ColumnSchema>, rows: seq<RowMap>, i: nat, k: nat)
    requires DistinctIds(columns) && k < |columns| && i < |Refreshed(columns, rows, OLAP_CHUNK_ROW_TARGET, 1)|
    requires |rows| < 0x1_0000_0000_0000_0000
    ensures (|Refreshed(columns, rows, OLAP_CHUNK_ROW_TARGET, 1)| - 1) * 1024 < |rows| <= |Refreshed(columns, rows, OLAP_CHUNK_ROW_TARGET, 1)| * 1024
    ensures var chunk := Refreshed(columns, rows, OLAP_CHUNK_ROW_TARGET, 1)[i];
      var size := if (i + 1) * 1024 <= |rows| then 1024 else |rows| - i * 1024;
      && chunk.meta.chunkId == i + 1 && chunk.meta.rowCount == size && columns[k].columnId in chunk.columns
      && |chunk.columns[columns[k].columnId]| == size
      && forall r :: 0 <= r < size ==> chunk.columns[columns[k].columnId][r] == RowValue(rows[i * 1024 + r], columns[k].name)
  {
    hide Refreshed, ZonesOf, StoredColumns, RowValue;
    ChunkParts(columns, rows, OLAP_CHUNK_ROW_TARGET, 1, i);
    StoredColumn(columns, Part(rows, OLAP_CHUNK_ROW_TARGET, i), |columns|, k);
  }

  // ---------------------------------------------------------------------------------------------
  // What a load reads back.

  /** The needed columns of a row. */
  function Restricted(columns: seq<ColumnSchema>, needed: seq<nat>, row: RowMap, n: nat): RowMap
    requires n <= |needed| && InRangeIndices(columns, needed)
  {
    if n == 0 then map[]
    else
      var name := columns[needed[n - 1]].name;
      Restricted(columns, needed, row, n - 1)[name := RowValue(row, name)]
  }

  /** The matching rows, restricted, up to the limit: a plain filter over the table. */
  function FilteredRows(columns: seq<ColumnSchema>, needed: seq<nat>, filters: seq<Expr>, limit: Option<nat>, source: seq<RowMap>,
      rows: seq<RowMap>): Loaded
    requires InRangeIndices(columns, needed)
    decreases |source|
  {
    if source == [] then Loaded(rows, false)
    else
      var row := Restricted(columns, needed, source[0], |needed|);
      if RowMatches(row, filters) then
        if Reached(limit, |rows| + 1) then Loaded(rows + [row], true)
        else FilteredRows(columns, needed, filters, limit, source[1..], rows + [row])
      else FilteredRows(columns, needed, filters, limit, source[1..], rows)
  }

  lemma {:induction false} StoredColumnAt(columns: seq<ColumnSchema>, rows: seq<RowMap>, n: nat, i: nat)
    requires DistinctIds(columns) && i < n <= |columns|
    ensures StoredColumns(columns, rows, n)[columns[i].columnId] == ColumnOf(rows, columns[i].name)
    decreases n
  {
    if i < n - 1 {
      assert columns[i].columnId != columns[n - 1].columnId;
      StoredColumnAt(columns, rows, n - 1, i);
    }
  }

  lemma ChunkHasColumns(columns: seq<ColumnSchema>, needed: seq<nat>, rows: seq<RowMap>, id: nat)
    requires InRangeIndices(columns, needed)
    ensures HasColumns(columns, needed, ChunkOf(columns, rows, id))
  {
    hide ZonesOf;
  }

  /** A row read from its chunk is the row that went in, restricted. */
  lemma {:induction false} ChunkRowIsRow(columns: seq<ColumnSchema>, needed: seq<nat>, rows: seq<RowMap>, id: nat, r: nat, n: nat)
    requires DistinctIds(columns) && InRangeIndices(columns, needed) && r < |rows| && n <= |needed|
    ensures HasColumns(columns, needed, ChunkOf(columns, rows, id))
    ensures ChunkRow(columns, needed, ChunkOf(columns, rows, id), r, n) == Restricted(columns, needed, rows[r], n)
    decreases n
  {
    ChunkHasColumns(columns, needed, rows, id);
    hide ZonesOf, StoredColumns;
    if n > 0 {
      ChunkRowIsRow(columns, needed, rows, id, r, n - 1);
      StoredColumnAt(columns, rows, |columns|, needed[n - 1]);
    }
  }

  lemma FilteredStep(columns: seq<ColumnSchema>, needed: seq<nat>, filters: seq<Expr>, limit: Option<nat>, source: seq<RowMap>, r: nat,
      rows: seq<RowMap>)
    requires InRangeIndices(columns, needed) && r < |source|
    ensures FilteredRows(columns, needed, filters, limit, source[r..], rows) ==
      var row := Restricted(columns, needed, source[r], |needed|);
      if !RowMatches(row, filters) then FilteredRows(columns, needed, filters, limit, source[r + 1..], rows)
      else if Reached(limit, |rows| + 1) then Loaded(rows + [row], true)
      else FilteredRows(columns, needed, filters, limit, source[r + 1..], rows + [row])
  {
    hide RowMatches, Restricted;
    assert source[r..][0] == source[r] && source[r..][1..] == source[r + 1..];
  }

  lemma {:induction false} LoadedChunk(columns: seq<ColumnSchema>, needed: seq<nat>, filters: seq<Expr>, limit: Option<nat>,
      source: seq<RowMap>, id: nat, r: nat, rows: seq<RowMap>)
    requires DistinctIds(columns) && InRangeIndices(columns, needed) && r <= |source| < 0x1_0000_0000
    ensures HasColumns(columns, needed, ChunkOf(columns, source, id))
    ensures LoadChunkRows(columns, needed, filters, limit, ChunkOf(columns, source, id), r, rows)
      == FilteredRows(columns, needed, filters, limit, source[r..], rows)
    decreases |source| - r
  {
    ChunkHasColumns(columns, needed, source, id);
    hide RowMatches, ChunkRow, Restricted, ZonesOf, StoredColumns, HasColumns;
    if r < |source| {
      ChunkRowIsRow(columns, needed, source, id, r, |needed|);
      var row := Restricted(columns, needed, source[r], |needed|);
      FilteredStep(columns, needed, filters, limit, source, r, rows);
      hide FilteredRows;
      LoadedChunk(columns, needed, filters, limit, source, id, r + 1, rows);
      LoadedChunk(columns, needed, filters, limit, source, id, r + 1, rows + [row]);
    }
  }

  lemma {:induction false} FilteredConcat(columns: seq<ColumnSchema>, needed: seq<nat>, filters: seq<Expr>, limit: Option<nat>,
      a: seq<RowMap>, b: seq<RowMap>, rows: seq<RowMap>)
    requires InRangeIndices(columns, needed)
    ensures FilteredRows(columns, needed, filters, limit, a + b, rows) ==
      var first := FilteredRows(columns, needed, filters, limit, a, rows);
      if first.stopped then first else FilteredRows(columns, needed, filters, limit, b, first.rows)
    decreases |a|
  {
    hide RowMatches, Restricted;
    if a == [] {
      assert a + b == b;
    } else {
      assert (a + b)[1..] == a[1..] + b;
      var row := Restricted(columns, needed, a[0], |needed|);
      FilteredConcat(columns, needed, filters, limit, a[1..], b, rows);
      FilteredConcat(columns, needed, filters, limit, a[1..], b, rows + [row]);
    }
  }

  lemma {:induction false} FullLoadIsFilter(columns: seq<ColumnSchema>, needed: seq<nat>, filters: seq<Expr>, limit: Option<nat>,
      source: seq<RowMap>, target: nat, id: nat, rows: seq<RowMap>)
    requires DistinctIds(columns) && InRangeIndices(columns, needed) && 0 < target < 0x1_0000_0000
    ensures LoadChunks(columns, needed, filters, limit, Refreshed(columns, source, target, id), false, rows)
      == Ok(FilteredRows(columns, needed, filters, limit, source, rows).rows)
    decreases |source|
  {
    hide LoadChunkRows, FilteredRows, ChunkOf, HasColumns;
    if source == [] {
      FilteredNothing(columns, needed, filters, limit, rows);
    } else {
      var size := if |source| <= target then |source| else target;
      var first, rest := source[..size], source[size..];
      assert source == first + rest && (|source| <= target ==> first == source);
      assert Refreshed(columns, source, target, id) == [ChunkOf(columns, first, id)] + Refreshed(columns, rest, target, id + 1);
      LoadedChunk(columns, needed, filters, limit, first, id, 0, rows);
      assert first[0..] == first;
      FilteredConcat(columns, needed, filters, limit, first, rest, rows);
      var loaded := FilteredRows(columns, needed, filters, limit, first, rows);
      FullLoadIsFilter(columns, needed, filters, limit, rest, target, id + 1, loaded.rows);
    }
  }

  lemma FilteredNothing(columns: seq<ColumnSchema>, needed: seq<nat>, filters: seq<Expr>, limit: Option<nat>, rows: seq<RowMap>)
    requires InRangeIndices(columns, needed)
    ensures FilteredRows(columns, needed, filters, limit, [], rows) == Loaded(rows, false)
  {
  }

  // ---------------------------------------------------------------------------------------------
  // The chunks' own zones bound their rows.

  /** Every column holds values of its kind without NaN, or only values that no literal compares with. */
  ghost predicate Homogeneous(columns: seq<ColumnSchema>, rows: seq<RowMap>) {
    forall c, r :: 0 <= c < |columns| && 0 <= r < |rows| ==> FitsKind(columns[c], RowValue(rows[r], columns[c].name))
  }

  predicate FitsKind(c: ColumnSchema, v: ColumnValue) {
    if OrderableType(StoredKind(c.dataType)) && StoredKind(c.dataType) != NumericType then Orderable(StoredKind(c.dataType), v) else Incomparable(v)
  }

  lemma {:induction false} FindColumnAt(columns: seq<ColumnSchema>, i: nat)
    requires DistinctNames(columns) && i < |columns|
    ensures FindColumn(columns, columns[i].name) == Some(columns[i])
    decreases |columns|
  {
    if i > 0 {
      FindColumnAt(columns[1..], i - 1);
    }
  }

  lemma {:induction false} FindZoneAt(zones: seq<Zone>, i: nat)
    requires i < |zones| && forall j, k :: 0 <= j < k < |zones| ==> zones[j].columnId != zones[k].columnId
    ensures FindZone(zones, zones[i].columnId) == Some(zones[i])
    decreases |zones|
  {
    if i > 0 {
      FindZoneAt(zones[1..], i - 1);
    }
  }

  lemma {:induction false} ZoneKeepsId(columnId: u32, values: seq<ColumnValue>)
    ensures ZoneOf(columnId, values).columnId == columnId
    decreases |values|
  {
    hide PartialCmp;
    if values != [] {
      ZoneKeepsId(columnId, values[..|values| - 1]);
    }
  }

  lemma {:induction false} RestrictedNames(columns: seq<ColumnSchema>, needed: seq<nat>, row: RowMap, n: nat, name: string)
    requires n <= |needed| && InRangeIndices(columns, needed) && name in Restricted(columns, needed, row, n)
    ensures (exists i :: 0 <= i < |columns| && columns[i].name == name) && Restricted(columns, needed, row, n)[name] == RowValue(row, name)
    decreases n
  {
    if columns[needed[n - 1]].name != name {
      RestrictedNames(columns, needed, row, n - 1, name);
    }
  }

  lemma RowWithinZones(columns: seq<ColumnSchema>, needed: seq<nat>, rows: seq<RowMap>, r: nat)
    requires DistinctIds(columns) && DistinctNames(columns) && InRangeIndices(columns, needed) && Homogeneous(columns, rows) && r < |rows|
    ensures RowBounded(columns, ZonesOf(columns, rows), Restricted(columns, needed, rows[r], |needed|))
  {
    hide Orderable, OrderableType, BoundedBy, StoredKind, Restricted, FindColumn, FindZone;
    var zones, row := ZonesOf(columns, rows), Restricted(columns, needed, rows[r], |needed|);
    forall c | 0 <= c < |columns| ensures zones[c].columnId == columns[c].columnId {
      ZoneKeepsId(columns[c].columnId, ColumnOf(rows, columns[c].name));
    }
    forall name | name in row && FindColumn(columns, name).Some?
      ensures var c := FindColumn(columns, name).value;
        FindZone(zones, c.columnId).Some? ==>
          (Incomparable(row[name]) ||
           (OrderableType(StoredKind(c.dataType)) && BoundedBy(FindZone(zones, c.columnId).value, StoredKind(c.dataType), row[name])))
    {
      RestrictedNames(columns, needed, rows[r], |needed|, name);
      var i :| 0 <= i < |columns| && columns[i].name == name;
      FindColumnAt(columns, i);
      FindZoneAt(zones, i);
      var values := ColumnOf(rows, name);
      assert FitsKind(columns[i], values[r]);
      if OrderableType(StoredKind(columns[i].dataType)) && StoredKind(columns[i].dataType) != NumericType {
        forall j | 0 <= j < |values| ensures Orderable(StoredKind(columns[i].dataType), values[j]) {
          assert FitsKind(columns[i], RowValue(rows[j], columns[i].name));
        }
        ZoneBounds(columns[i].columnId, values, StoredKind(columns[i].dataType), r);
      }
    }
  }

  lemma ChunkIsBounded(columns: seq<ColumnSchema>, needed: seq<nat>, rows: seq<RowMap>, id: nat)
    requires DistinctIds(columns) && DistinctNames(columns) && InRangeIndices(columns, needed) && Homogeneous(columns, rows)
    ensures ChunkBounded(columns, needed, ChunkOf(columns, rows, id))
  {
    hide RowBounded, ZonesOf, StoredColumns, HasColumns, Restricted, ChunkRow;
    var chunk := ChunkOf(columns, rows, id);
    ChunkHasColumns(columns, needed, rows, id);
    forall r: nat | r < chunk.meta.rowCount ensures RowBounded(columns, chunk.meta.zones, ChunkRow(columns, needed, chunk, r, |needed|)) {
      ChunkRowIsRow(columns, needed, rows, id, r, |needed|);
      RowWithinZones(columns, needed, rows, r);
    }
  }

  lemma {:induction false} RefreshedBounded(columns: seq<ColumnSchema>, needed: seq<nat>, rows: seq<RowMap>, target: nat, id: nat)
    requires DistinctIds(columns) && DistinctNames(columns) && InRangeIndices(columns, needed) && Homogeneous(columns, rows) && target > 0
    ensures forall i :: 0 <= i < |Refreshed(columns, rows, target, id)| ==> ChunkBounded(columns, needed, Refreshed(columns, rows, target, id)[i])
    decreases |rows|
  {
    hide ChunkBounded, ChunkOf, FitsKind;
    if rows != [] {
      if |rows| <= target {
        ChunkIsBounded(columns, needed, rows, id);
      } else {
        ChunkIsBounded(columns, needed, rows[..target], id);
        RefreshedBounded(columns, needed, rows[target..], target, id + 1);
      }
    }
  }

  /**
   * Refreshing and loading with pruning is filtering the table: for every homogeneous table, every filter
   * without a negated BETWEEN and every limit, the load returns the matching rows, in order, up to the limit.
   */
  lemma PrunedLoadIsFilter(columns: seq<ColumnSchema>, needed: seq<nat>, filters: seq<Expr>, limit: Option<nat>, source: seq<RowMap>)
    requires DistinctIds(columns) && DistinctNames(columns) && InRangeIndices(columns, needed) && Homogeneous(columns, source)
    requires forall i :: 0 <= i < |filters| ==> NoNegatedBetween(filters[i])
    ensures LoadChunks(columns, needed, filters, limit, Refreshed(columns, source, OLAP_CHUNK_ROW_TARGET, 1), true, [])
      == Ok(FilteredRows(columns, needed, filters, limit, source, []).rows)
  {
    hide Refreshed, LoadChunks, FilteredRows, Homogeneous, NoNegatedBetween, ChunkBounded;
    RefreshedBounded(columns, needed, source, OLAP_CHUNK_ROW_TARGET, 1);
    FullLoadIsFilter(columns, needed, filters, limit, source, OLAP_CHUNK_ROW_TARGET, 1, []);
    PrunedLoadIsFullLoad(columns, needed, filters, limit, Refreshed(columns, source, OLAP_CHUNK_ROW_TARGET, 1), []);
  }
}
