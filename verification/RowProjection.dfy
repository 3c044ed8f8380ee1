/** Decoding only some columns of a row, as values or as numeric slots, against decoding the whole row. */
module RowProjection {
  import opened Basics
  import opened Bytes
  import opened Values
  import opened Reader
  import opened TupleCodec
  import opened FixedColumns
  import opened RowFormat
  import opened RowRoundTrip

  /** `output_idx`: the last output that wants column `id`. */
  function OutputIdx(columns: seq<ColumnSchema>, indices: seq<nat>, id: u32, n: nat): (r: Option<nat>)
    requires n <= |indices|
    ensures r.Some? ==> r.value < n && indices[r.value] < |columns| && columns[indices[r.value]].columnId == id
  {
    if n == 0 then None
    else if indices[n - 1] < |columns| && columns[indices[n - 1]].columnId == id then Some(n - 1)
    else OutputIdx(columns, indices, id, n - 1)
  }

  function Output(columns: seq<ColumnSchema>, indices: seq<nat>, id: u32): Option<nat> {
    OutputIdx(columns, indices, id, |indices|)
  }

  predicate DistinctInRange(columns: seq<ColumnSchema>, indices: seq<nat>) {
    && (forall o :: 0 <= o < |indices| ==> indices[o] < |columns|)
    && (forall o, p :: 0 <= o < p < |indices| ==> indices[o] != indices[p])
  }

  function ColumnId(columns: seq<ColumnSchema>, indices: seq<nat>, o: nat): u32
    requires o < |indices| && indices[o] < |columns|
  {
    columns[indices[o]].columnId
  }

  lemma {:induction false} OutputOfId(columns: seq<ColumnSchema>, indices: seq<nat>, o: nat, n: nat)
    requires DistinctIds(columns) && DistinctInRange(columns, indices) && o < n <= |indices|
    ensures OutputIdx(columns, indices, ColumnId(columns, indices, o), n) == Some(o)
    decreases n
  {
    if o < n - 1 {
      assert indices[o] != indices[n - 1];
      assert columns[indices[n - 1]].columnId != columns[indices[o]].columnId;
      OutputOfId(columns, indices, o, n - 1);
    }
  }

  // ---------------------------------------------------------------------------------------------
  // Projected values.

  function ProjectLegacy(columns: seq<ColumnSchema>, indices: seq<nat>, b: bytes, pos: nat, count: nat, values: seq<ColumnValue>)
    : (r: Read<seq<ColumnValue>>)
    requires pos <= |b| && |values| == |indices|
    ensures r.Read? ==> pos <= r.next <= |b| && |r.value| == |indices|
    decreases count
  {
    if count == 0 then Read(values, pos)
    else
      match ReadUnsigned(b, pos, 4)
      case Fail => Fail
      case Read(id, at) =>
        Pow256Values();
        match Output(columns, indices, id)
        case Some(o) =>
          (match DecodeTuple(b, at)
           case Fail => Fail
           case Read(v, next) => ProjectLegacy(columns, indices, b, next, count - 1, values[o := v]))
        case None =>
          (match SkipTuple(b, at)
           case Fail => Fail
           case Read(_, next) => ProjectLegacy(columns, indices, b, next, count - 1, values))
  }

  function ProjectFast(columns: seq<ColumnSchema>, indices: seq<nat>, b: bytes, count: nat, k: nat, values: seq<ColumnValue>)
    : (r: Result<seq<ColumnValue>>)
    requires k <= count && |values| == |indices|
    ensures r.Ok? ==> |r.value| == |indices|
    decreases count - k
  {
    if k == count then Ok(values)
    else
      match ReadFastEntry(b, count, k)
      case Err => Err
      case Ok(e) =>
        match Output(columns, indices, e.id)
        case None => ProjectFast(columns, indices, b, count, k + 1, values)
        case Some(o) =>
          match DecodeWhole(b, e.start, e.end)
          case Err => Err
          case Ok(v) => ProjectFast(columns, indices, b, count, k + 1, values[o := v])
  }

  function ProjectFixed(columns: seq<ColumnSchema>, indices: seq<nat>, b: bytes, layout: Layout, n: nat): (r: Result<seq<ColumnValue>>)
    requires layout.count <= |columns| && n <= |indices|
    ensures r.Ok? ==> |r.value| == n
  {
    if n == 0 then Ok([])
    else
      match ProjectFixed(columns, indices, b, layout, n - 1)
      case Err => Err
      case Ok(vs) =>
        match DecodeColumn(columns, b, layout, indices[n - 1])
        case Err => Err
        case Ok(v) => Ok(vs + [v])
  }

  function NullValues(n: nat): (r: seq<ColumnValue>)
    ensures |r| == n && forall i :: 0 <= i < n ==> r[i] == Null
  {
    seq(n, _ => Null)
  }

  /** `decode_row_record_projected_values`, any format. */
  function Project(columns: seq<ColumnSchema>, indices: seq<nat>, b: bytes): (r: Result<seq<ColumnValue>>)
    ensures r.Ok? ==> |r.value| == |indices|
  {
    if b == [] then Err
    else if b[0] == FIXED_VERSION then
      match FixedLayout(columns, b)
      case Err => Err
      case Ok(layout) => ProjectFixed(columns, indices, b, layout, |indices|)
    else if b[0] == FAST_VERSION then
      match FastHeader(b)
      case Err => Err
      case Ok(h) => ProjectFast(columns, indices, b, h.count, 0, NullValues(|indices|))
    else
      match DecodeHeader(b)
      case Err => Err
      case Ok(h) =>
        if h.version != LEGACY_VERSION then Err
        else
          match ProjectLegacy(columns, indices, b, HEADER_LEN, h.count, NullValues(|indices|))
          case Fail => Err
          case Read(vs, next) => if next == |b| then Ok(vs) else Err
  }

  /** Projected values are what a record's map holds for the projected columns. */
  predicate Shows(columns: seq<ColumnSchema>, indices: seq<nat>, m: map<u32, ColumnValue>, values: seq<ColumnValue>)
    requires DistinctInRange(columns, indices)
  {
    && |values| == |indices|
    && forall o {:trigger values[o]} :: 0 <= o < |indices| ==>
         values[o] == if ColumnId(columns, indices, o) in m then m[ColumnId(columns, indices, o)] else Null
  }

  lemma ShowsInsert(columns: seq<ColumnSchema>, indices: seq<nat>, m: map<u32, ColumnValue>, values: seq<ColumnValue>, id: u32, v: ColumnValue)
    requires DistinctIds(columns) && DistinctInRange(columns, indices) && Shows(columns, indices, m, values)
    ensures match Output(columns, indices, id)
      case Some(o) => Shows(columns, indices, m[id := v], values[o := v])
      case None => Shows(columns, indices, m[id := v], values)
  {
    forall o | 0 <= o < |indices| ensures Output(columns, indices, ColumnId(columns, indices, o)) == Some(o) {
      OutputOfId(columns, indices, o, |indices|);
    }
  }

  lemma {:induction false} LegacyProjection(columns: seq<ColumnSchema>, indices: seq<nat>, b: bytes, pos: nat, count: nat,
      m: map<u32, ColumnValue>, values: seq<ColumnValue>)
    requires DistinctIds(columns) && DistinctInRange(columns, indices) && pos <= |b|
    requires Shows(columns, indices, m, values) && ReadEntries(b, pos, count, m).Read?
    ensures var full, part := ReadEntries(b, pos, count, m), ProjectLegacy(columns, indices, b, pos, count, values);
      part.Read? && part.next == full.next && Shows(columns, indices, full.value, part.value)
    decreases count
  {
    hide DecodeTuple, SkipTuple, Shows, OutputIdx;
    if count > 0 {
      var id := ReadUnsigned(b, pos, 4);
      var v := DecodeTuple(b, id.next);
      Pow256Values();
      ShowsInsert(columns, indices, m, values, id.value, v.value);
      SkipAgrees(b, id.next);
      var o := Output(columns, indices, id.value);
      ShowsLength(columns, indices, m, values);
      LegacyProjection(columns, indices, b, v.next, count - 1, m[id.value := v.value],
        if o.Some? then values[o.value := v.value] else values);
    } else {
      ShowsLength(columns, indices, m, values);
    }
  }

  lemma ShowsLength(columns: seq<ColumnSchema>, indices: seq<nat>, m: map<u32, ColumnValue>, values: seq<ColumnValue>)
    requires DistinctInRange(columns, indices) && Shows(columns, indices, m, values)
    ensures |values| == |indices|
  {
  }

  lemma {:induction false} FastProjection(columns: seq<ColumnSchema>, indices: seq<nat>, b: bytes, count: nat, k: nat,
      m: map<u32, ColumnValue>, values: seq<ColumnValue>)
    requires DistinctIds(columns) && DistinctInRange(columns, indices) && k <= count
    requires Shows(columns, indices, m, values) && ReadFastEntries(b, count, k, m).Ok?
    ensures var full, part := ReadFastEntries(b, count, k, m), ProjectFast(columns, indices, b, count, k, values);
      part.Ok? && Shows(columns, indices, full.value, part.value)
    decreases count - k
  {
    hide DecodeWhole, Shows, OutputIdx, ReadFastEntry;
    ShowsLength(columns, indices, m, values);
    if k < count {
      var e := ReadFastEntry(b, count, k).value;
      var v := DecodeWhole(b, e.start, e.end).value;
      ShowsInsert(columns, indices, m, values, e.id, v);
      var o := Output(columns, indices, e.id);
      FastProjection(columns, indices, b, count, k + 1, m[e.id := v], if o.Some? then values[o.value := v] else values);
    }
  }

  lemma {:induction false} FixedProjection(columns: seq<ColumnSchema>, indices: seq<nat>, b: bytes, layout: Layout, n: nat)
    requires layout.count <= |columns| && n <= |indices|
    requires forall o :: 0 <= o < n ==> indices[o] < |columns|
    requires DecodeColumns(columns, b, layout, |columns|).Ok?
    ensures ProjectFixed(columns, indices, b, layout, n).Ok?
    ensures forall o :: 0 <= o < n ==>
      ProjectFixed(columns, indices, b, layout, n).value[o] == DecodeColumns(columns, b, layout, |columns|).value[indices[o]]
    decreases n
  {
    hide DecodeColumn, DecodeColumns;
    if n > 0 {
      FixedProjection(columns, indices, b, layout, n - 1);
      DecodeColumnsAt(columns, b, layout, |columns|, indices[n - 1]);
    }
  }

  /** The values of the projected columns in a decoded row. */
  function ProjectedOf(columns: seq<ColumnSchema>, indices: seq<nat>, row: RowMap): (r: seq<ColumnValue>)
    requires DistinctInRange(columns, indices)
    ensures |r| == |indices|
  {
    seq(|indices|, o requires 0 <= o < |indices| => RowValue(row, columns[indices[o]].name))
  }

  /**
   * Decoding a projection is projecting the full decode: on every byte string that decodes, in any of the
   * three formats, and for distinct column ids and distinct indices in range.
   */
  lemma ProjectionAgrees(columns: seq<ColumnSchema>, indices: seq<nat>, b: bytes)
    requires DistinctIds(columns) && DistinctNames(columns) && DistinctInRange(columns, indices)
    requires DecodeRow(columns, b).Ok?
    ensures Project(columns, indices, b) == Ok(ProjectedOf(columns, indices, DecodeRow(columns, b).value))
  {
    if b != [] && b[0] == FIXED_VERSION {
      FixedProjectionAgrees(columns, indices, b);
    } else {
      TaggedProjectionAgrees(columns, indices, b);
    }
  }

  lemma FixedProjectionAgrees(columns: seq<ColumnSchema>, indices: seq<nat>, b: bytes)
    requires DistinctNames(columns) && DistinctInRange(columns, indices)
    requires b != [] && b[0] == FIXED_VERSION && DecodeFixedRow(columns, b).Ok?
    ensures Project(columns, indices, b) == Ok(ProjectedOf(columns, indices, DecodeRow(columns, b).value))
  {
    hide DecodeColumn, DecodeColumns, FixedLayout, ProjectFixed, RowOf;
    var layout := FixedLayout(columns, b).value;
    var values := DecodeColumns(columns, b, layout, |columns|).value;
    FixedProjection(columns, indices, b, layout, |indices|);
    forall o | 0 <= o < |indices| ensures RowValue(RowOf(columns, values, |columns|), columns[indices[o]].name) == values[indices[o]] {
      RowOfValues(columns, values, |columns|, indices[o]);
    }
    assert Project(columns, indices, b).value == ProjectedOf(columns, indices, DecodeRow(columns, b).value);
  }

  lemma TaggedProjectionAgrees(columns: seq<ColumnSchema>, indices: seq<nat>, b: bytes)
    requires DistinctIds(columns) && DistinctNames(columns) && DistinctInRange(columns, indices)
    requires DecodeRaw(b).Ok? && b[0] != FIXED_VERSION
    ensures Project(columns, indices, b) == Ok(ProjectedOf(columns, indices, DecodeRow(columns, b).value))
  {
    hide ReadEntries, ReadFastEntries, ProjectLegacy, ProjectFast, RowOf, FastHeader;
    var nulls := NullValues(|indices|);
    assert Shows(columns, indices, map[], nulls);
    if b[0] == FAST_VERSION {
      FastProjection(columns, indices, b, FastHeader(b).value.count, 0, map[], nulls);
    } else {
      LegacyProjection(columns, indices, b, HEADER_LEN, DecodeHeader(b).value.count, map[], nulls);
    }
    var m := DecodeRaw(b).value.values;
    var values := ValuesById(columns, m);
    forall o | 0 <= o < |indices| ensures RowValue(RowOf(columns, values, |columns|), columns[indices[o]].name) == values[indices[o]] {
      RowOfValues(columns, values, |columns|, indices[o]);
    }
    assert Shows(columns, indices, m, Project(columns, indices, b).value);
    assert Project(columns, indices, b).value == ProjectedOf(columns, indices, DecodeRow(columns, b).value);
  }
}
