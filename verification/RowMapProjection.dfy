/** Decoding some columns of a row into a map by column name, against decoding the whole row. */
module RowMapProjection {
  import opened Basics
  import opened Bytes
  import opened Values
  import opened Reader
  import opened TupleCodec
  import opened FixedColumns
  import opened RowFormat
  import opened RowProjection
  import opened RowDecoder

  /** Column id `id` is that of index `p`. */
  predicate Wants(columns: seq<ColumnSchema>, indices: seq<nat>, id: u32, p: nat)
    requires p < |indices|
  {
    indices[p] < |columns| && columns[indices[p]].columnId == id
  }

  /** The wanted list, sorted by column id without repeated ids: the first index from `o` on with the id stays. */
  function WantedIdx(columns: seq<ColumnSchema>, indices: seq<nat>, id: u32, o: nat): (r: Option<nat>)
    requires o <= |indices|
    ensures r.Some? ==> o <= r.value < |indices| && Wants(columns, indices, id, r.value)
    ensures forall p :: o <= p < (if r.Some? then r.value else |indices|) ==> !Wants(columns, indices, id, p)
    decreases |indices| - o
  {
    if o == |indices| then None
    else if Wants(columns, indices, id, o) then Some(o)
    else WantedIdx(columns, indices, id, o + 1)
  }

  /** `binary_search_by_key` on the wanted list, and the insertion of the value found. */
  function Inserted(columns: seq<ColumnSchema>, indices: seq<nat>, id: u32, v: ColumnValue, row: RowMap): RowMap {
    match WantedIdx(columns, indices, id, 0)
    case None => row
    case Some(o) => row[columns[indices[o]].name := v]
  }

  // ---------------------------------------------------------------------------------------------
  // The three formats.

  /** Version 2 decodes every value, wanted or not. */
  function ProjectLegacyRow(columns: seq<ColumnSchema>, indices: seq<nat>, b: bytes, pos: nat, count: nat, row: RowMap): (r: Read<RowMap>)
    requires pos <= |b|
    ensures r.Read? ==> pos <= r.next <= |b|
    decreases count
  {
    if count == 0 then Read(row, pos)
    else
      match ReadUnsigned(b, pos, 4)
      case Fail => Fail
      case Read(id, at) =>
        match DecodeTuple(b, at)
        case Fail => Fail
        case Read(v, next) => Pow256Values(); ProjectLegacyRow(columns, indices, b, next, count - 1, Inserted(columns, indices, id, v, row))
  }

  function ProjectFastRow(columns: seq<ColumnSchema>, indices: seq<nat>, b: bytes, count: nat, k: nat, row: RowMap): Result<RowMap>
    requires k <= count
    decreases count - k
  {
    if k == count then Ok(row)
    else
      match ReadFastEntry(b, count, k)
      case Err => Err
      case Ok(e) =>
        if WantedIdx(columns, indices, e.id, 0).None? then ProjectFastRow(columns, indices, b, count, k + 1, row)
        else
          match DecodeWhole(b, e.start, e.end)
          case Err => Err
          case Ok(v) => ProjectFastRow(columns, indices, b, count, k + 1, Inserted(columns, indices, e.id, v, row))
  }

  /** The wanted ones among the first `n` columns of the schema. */
  function ProjectFixedRow(columns: seq<ColumnSchema>, indices: seq<nat>, b: bytes, layout: Layout, n: nat): Result<RowMap>
    requires layout.count <= |columns| && n <= |columns|
  {
    if n == 0 then Ok(map[])
    else
      match ProjectFixedRow(columns, indices, b, layout, n - 1)
      case Err => Err
      case Ok(row) =>
        if WantedIdx(columns, indices, columns[n - 1].columnId, 0).None? then Ok(row)
        else
          match DecodeColumn(columns, b, layout, n - 1)
          case Err => Err
          case Ok(v) => Ok(Inserted(columns, indices, columns[n - 1].columnId, v, row))
  }

  /** `decode_row_record_projected`, any format. */
  function ProjectRow(columns: seq<ColumnSchema>, indices: seq<nat>, b: bytes): Result<RowMap> {
    if b == [] then Err
    else if b[0] == FIXED_VERSION then
      match FixedLayout(columns, b)
      case Err => Err
      case Ok(layout) => ProjectFixedRow(columns, indices, b, layout, |columns|)
    else if b[0] == FAST_VERSION then
      match FastHeader(b)
      case Err => Err
      case Ok(h) => ProjectFastRow(columns, indices, b, h.count, 0, map[])
    else
      match DecodeHeader(b)
      case Err => Err
      case Ok(h) =>
        if h.version != LEGACY_VERSION then Err
        else
          match ProjectLegacyRow(columns, indices, b, HEADER_LEN, h.count, map[])
          case Fail => Err
          case Read(row, next) => if next == |b| then Ok(row) else Err
  }

  // ---------------------------------------------------------------------------------------------
  // The decoder.

  method DecodeProjectedRow(columns: seq<ColumnSchema>, indices: seq<nat>, b: bytes) returns (r: Result<RowMap>)
    ensures r == ProjectRow(columns, indices, b)
  {
    hide DecodeHeader, ReadFastEntry, DecodeWhole, DecodeColumn, FixedLayout, WantedIdx, Inserted;
    if b == [] {
      return Err;
    }
    if b[0] == FIXED_VERSION {
      r := DecodeProjectedFixedRow(columns, indices, b);
      return;
    }
    if b[0] != FAST_VERSION {
      r := DecodeProjectedLegacyRow(columns, indices, b);
      return;
    }
    var header := FastHeader(b);
    if header.Err? {
      return Err;
    }
    var row: RowMap, count := map[], header.value.count;
    for k := 0 to count
      invariant ProjectFastRow(columns, indices, b, count, 0, map[]) == ProjectFastRow(columns, indices, b, count, k, row)
    {
      var e := ReadFastEntry(b, count, k);
      if e.Err? { return Err; }
      if WantedIdx(columns, indices, e.value.id, 0).Some? {
        var value := DecodeWhole(b, e.value.start, e.value.end);
        if value.Err? { return Err; }
        row := Inserted(columns, indices, e.value.id, value.value, row);
      }
    }
    r := Ok(row);
  }

  method DecodeProjectedFixedRow(columns: seq<ColumnSchema>, indices: seq<nat>, b: bytes) returns (r: Result<RowMap>)
    requires b != [] && b[0] == FIXED_VERSION
    ensures r == ProjectRow(columns, indices, b)
  {
    hide DecodeColumn, FixedLayout, WantedIdx, Inserted;
    var layout := FixedLayout(columns, b);
    if layout.Err? {
      return Err;
    }
    var row: RowMap, i := map[], 0;
    while i < |columns|
      invariant 0 <= i <= |columns| && ProjectFixedRow(columns, indices, b, layout.value, i) == Ok(row)
    {
      if WantedIdx(columns, indices, columns[i].columnId, 0).Some? {
        var value := DecodeColumn(columns, b, layout.value, i);
        if value.Err? {
          ProjectFixedRowErr(columns, indices, b, layout.value, i + 1, |columns|);
          return Err;
        }
        row := Inserted(columns, indices, columns[i].columnId, value.value, row);
      }
      i := i + 1;
    }
    r := Ok(row);
  }

  lemma {:induction false} ProjectFixedRowErr(columns: seq<ColumnSchema>, indices: seq<nat>, b: bytes, layout: Layout, i: nat, n: nat)
    requires layout.count <= |columns| && i <= n <= |columns| && ProjectFixedRow(columns, indices, b, layout, i).Err?
    ensures ProjectFixedRow(columns, indices, b, layout, n).Err?
    decreases n
  {
    if i < n {
      ProjectFixedRowErr(columns, indices, b, layout, i, n - 1);
    }
  }

  method DecodeProjectedLegacyRow(columns: seq<ColumnSchema>, indices: seq<nat>, b: bytes) returns (r: Result<RowMap>)
    requires b != [] && b[0] != FIXED_VERSION && b[0] != FAST_VERSION
    ensures r == ProjectRow(columns, indices, b)
  {
    hide DecodeTuple, DecodeHeader, WantedIdx, Inserted;
    var c := new Cursor(b);
    var header := ReadHeader(c);
    if header.Err? || header.value.version != LEGACY_VERSION {
      return Err;
    }
    var row: RowMap, count, i := map[], header.value.count, 0;
    while i < count
      invariant 0 <= i <= count && c.Valid()
      invariant ProjectLegacyRow(columns, indices, b, HEADER_LEN, count, map[]) == ProjectLegacyRow(columns, indices, b, c.pos, count - i, row)
    {
      var id := c.Unsigned(4);
      if id.Err? { return Err; }
      Pow256Values();
      var value := DecodeTupleValue(c);
      if value.Err? { return Err; }
      row := Inserted(columns, indices, id.value, value.value, row);
      i := i + 1;
    }
    if c.pos != |b| { return Err; }
    r := Ok(row);
  }

  // ---------------------------------------------------------------------------------------------
  // Against the full decode.

  /** The map shows the record's values of the wanted columns, and nothing else. */
  ghost predicate RowShows(columns: seq<ColumnSchema>, indices: seq<nat>, m: map<u32, ColumnValue>, row: RowMap)
    requires DistinctInRange(columns, indices)
  {
    && (forall o :: 0 <= o < |indices| ==>
         RowValue(row, columns[indices[o]].name) == if ColumnId(columns, indices, o) in m then m[ColumnId(columns, indices, o)] else Null)
    && OnlyWanted(columns, indices, row)
  }

  ghost predicate OnlyWanted(columns: seq<ColumnSchema>, indices: seq<nat>, row: RowMap)
    requires DistinctInRange(columns, indices)
  {
    forall name :: name in row ==> exists o :: 0 <= o < |indices| && columns[indices[o]].name == name
  }

  lemma NothingIsWanted(columns: seq<ColumnSchema>, indices: seq<nat>)
    requires DistinctInRange(columns, indices)
    ensures OnlyWanted(columns, indices, map[])
  {
  }

  lemma RowShowsInsert(columns: seq<ColumnSchema>, indices: seq<nat>, m: map<u32, ColumnValue>, row: RowMap, id: u32, v: ColumnValue)
    requires DistinctIds(columns) && DistinctNames(columns) && DistinctInRange(columns, indices) && RowShows(columns, indices, m, row)
    ensures RowShows(columns, indices, m[id := v], Inserted(columns, indices, id, v, row))
  {
    hide WantedIdx;
    var w, after := WantedIdx(columns, indices, id, 0), Inserted(columns, indices, id, v, row);
    forall o | 0 <= o < |indices|
      ensures RowValue(after, columns[indices[o]].name)
        == if ColumnId(columns, indices, o) in m[id := v] then m[id := v][ColumnId(columns, indices, o)] else Null
    {
      assert Wants(columns, indices, ColumnId(columns, indices, o), o);
      assert w.Some? && ColumnId(columns, indices, o) != id ==> columns[indices[w.value]].name != columns[indices[o]].name;
    }
  }

  lemma {:induction false} LegacyRowProjection(columns: seq<ColumnSchema>, indices: seq<nat>, b: bytes, pos: nat, count: nat,
      m: map<u32, ColumnValue>, row: RowMap)
    requires DistinctIds(columns) && DistinctNames(columns) && DistinctInRange(columns, indices) && pos <= |b|
    requires RowShows(columns, indices, m, row) && ReadEntries(b, pos, count, m).Read?
    ensures var full, part := ReadEntries(b, pos, count, m), ProjectLegacyRow(columns, indices, b, pos, count, row);
      part.Read? && part.next == full.next && RowShows(columns, indices, full.value, part.value)
    decreases count
  {
    hide DecodeTuple, RowShows, Inserted;
    if count > 0 {
      var id := ReadUnsigned(b, pos, 4);
      var v := DecodeTuple(b, id.next);
      Pow256Values();
      RowShowsInsert(columns, indices, m, row, id.value, v.value);
      LegacyRowProjection(columns, indices, b, v.next, count - 1, m[id.value := v.value], Inserted(columns, indices, id.value, v.value, row));
    }
  }

  lemma {:induction false} FastRowProjection(columns: seq<ColumnSchema>, indices: seq<nat>, b: bytes, count: nat, k: nat,
      m: map<u32, ColumnValue>, row: RowMap)
    requires DistinctIds(columns) && DistinctNames(columns) && DistinctInRange(columns, indices) && k <= count
    requires RowShows(columns, indices, m, row) && ReadFastEntries(b, count, k, m).Ok?
    ensures var full, part := ReadFastEntries(b, count, k, m), ProjectFastRow(columns, indices, b, count, k, row);
      part.Ok? && RowShows(columns, indices, full.value, part.value)
    decreases count - k
  {
    hide DecodeWhole, RowShows, WantedIdx, ReadFastEntry;
    if k < count {
      var e := ReadFastEntry(b, count, k).value;
      var v := DecodeWhole(b, e.start, e.end).value;
      RowShowsInsert(columns, indices, m, row, e.id, v);
      FastRowProjection(columns, indices, b, count, k + 1, m[e.id := v], Inserted(columns, indices, e.id, v, row));
    }
  }

  lemma {:induction false} FixedRowProjection(columns: seq<ColumnSchema>, indices: seq<nat>, b: bytes, layout: Layout, n: nat)
    requires DistinctIds(columns) && DistinctNames(columns) && DistinctInRange(columns, indices) && layout.count <= |columns| && n <= |columns|
    requires DecodeColumns(columns, b, layout, |columns|).Ok?
    ensures var part := ProjectFixedRow(columns, indices, b, layout, n);
      part.Ok? && OnlyWanted(columns, indices, part.value) &&
      forall o :: 0 <= o < |indices| && indices[o] < n ==>
        RowValue(part.value, columns[indices[o]].name) == DecodeColumns(columns, b, layout, |columns|).value[indices[o]]
    decreases n
  {
    hide DecodeColumn, DecodeColumns, WantedIdx;
    if n > 0 {
      var id := columns[n - 1].columnId;
      FixedRowProjection(columns, indices, b, layout, n - 1);
      DecodeColumnsAt(columns, b, layout, |columns|, n - 1);
      var w := WantedIdx(columns, indices, id, 0);
      assert w.Some? ==> indices[w.value] == n - 1;
      forall o | 0 <= o < |indices| && indices[o] < n
        ensures indices[o] == n - 1 ==> w.Some?
        ensures indices[o] < n - 1 ==> columns[indices[o]].name != columns[n - 1].name
      {
        assert indices[o] == n - 1 ==> Wants(columns, indices, id, o);
      }
    }
  }

  /**
   * The map of a projection holds, for every projected column, what the full decode holds, and no other column: on
   * every byte string that decodes, in any of the three formats.
   */
  lemma RowProjectionAgrees(columns: seq<ColumnSchema>, indices: seq<nat>, b: bytes)
    requires DistinctIds(columns) && DistinctNames(columns) && DistinctInRange(columns, indices)
    requires DecodeRow(columns, b).Ok?
    ensures var part := ProjectRow(columns, indices, b);
      part.Ok? && OnlyWanted(columns, indices, part.value) && ProjectedOf(columns, indices, part.value) == ProjectedOf(columns, indices, DecodeRow(columns, b).value)
  {
    hide DecodeColumn, DecodeColumns, FixedLayout, ProjectFixedRow, ReadEntries, ReadFastEntries, ProjectLegacyRow, ProjectFastRow, RowOf, FastHeader, OnlyWanted;
    if b[0] == FIXED_VERSION {
      var layout := FixedLayout(columns, b).value;
      var values := DecodeColumns(columns, b, layout, |columns|).value;
      FixedRowProjection(columns, indices, b, layout, |columns|);
      ValuesInRow(columns, indices, values);
    } else {
      assert RowShows(columns, indices, map[], map[]) by { NothingIsWanted(columns, indices); }
      if b[0] == FAST_VERSION {
        FastRowProjection(columns, indices, b, FastHeader(b).value.count, 0, map[], map[]);
      } else {
        LegacyRowProjection(columns, indices, b, HEADER_LEN, DecodeHeader(b).value.count, map[], map[]);
      }
      ValuesInRow(columns, indices, ValuesById(columns, DecodeRaw(b).value.values));
    }
  }

  lemma ValuesInRow(columns: seq<ColumnSchema>, indices: seq<nat>, values: seq<ColumnValue>)
    requires DistinctNames(columns) && DistinctInRange(columns, indices) && |values| == |columns|
    ensures forall o :: 0 <= o < |indices| ==> RowValue(RowOf(columns, values, |columns|), columns[indices[o]].name) == values[indices[o]]
  {
    forall o | 0 <= o < |indices| ensures RowValue(RowOf(columns, values, |columns|), columns[indices[o]].name) == values[indices[o]] {
      RowOfValues(columns, values, |columns|, indices[o]);
    }
  }
}
