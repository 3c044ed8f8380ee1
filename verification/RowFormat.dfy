/**
 * The three row formats as pure functions: version 2 (a list of tagged values), version 3 (a directory
 * over tagged values) and version 4 (null bitmap, fixed region, variable directory, payload).
 */
module RowFormat {
  import opened Basics
  import opened Bytes
  import opened Values
  import opened Reader
  import opened TupleCodec
  import opened FixedColumns

  const LEGACY_VERSION: byte := 2
  const FAST_VERSION: byte := 3
  const FIXED_VERSION: byte := 4
  const U32: nat := 0x1_0000_0000

  datatype Mvcc = Mvcc(xmin: u64, xmax: u64)

  datatype RowRecord = RowRecord(schemaVersion: u32, tableEpoch: u64, mvcc: Mvcc, values: map<u32, ColumnValue>)

  /** The 33 bytes that every format starts with. */
  datatype Header = Header(version: byte, schemaVersion: u32, tableEpoch: u64, mvcc: Mvcc, count: u32)

  const HEADER_LEN: nat := 33

  function EncodeHeader(h: Header): (r: bytes)
    ensures |r| == HEADER_LEN
  {
    [h.version] + (Be(h.schemaVersion, 4) + (Be(h.tableEpoch, 8) + (Be(h.mvcc.xmin, 8) + (Be(h.mvcc.xmax, 8) + Be(h.count, 4)))))
  }

  function DecodeHeader(b: bytes): Result<Header> {
    if |b| < HEADER_LEN then Err
    else
      Pow256Values();
      Ok(Header(b[0], FromBe(b[1..5]), FromBe(b[5..13]), Mvcc(FromBe(b[13..21]), FromBe(b[21..29])), FromBe(b[29..33])))
  }

  // ---------------------------------------------------------------------------------------------
  // Version 4, written.

  function ColumnValues(columns: seq<ColumnSchema>, row: RowMap): (r: seq<ColumnValue>)
    ensures |r| == |columns|
  {
    seq(|columns|, i requires 0 <= i < |columns| => RowValue(row, columns[i].name))
  }

  function Nulls(values: seq<ColumnValue>): (r: seq<bool>)
    ensures |r| == |values|
  {
    seq(|values|, i requires 0 <= i < |values| => values[i].Null?)
  }

  function FixedBytes(c: ColumnSchema, v: ColumnValue): (r: bytes)
    ensures |r| == ColumnWidth(c)
  {
    if v.Null? then ZeroBytes(ColumnWidth(c)) else EncodeFixed(ColumnWidth(c), v)
  }

  function VariableBytes(c: ColumnSchema, v: ColumnValue): bytes {
    if FixedWidth(c.dataType).Some? || v.Null? then [] else EncodeTuple(v)
  }

  /** The first `n` parts, one after the other. */
  function Concat(parts: seq<bytes>, n: nat): bytes
    requires n <= |parts|
  {
    if n == 0 then [] else Concat(parts, n - 1) + parts[n - 1]
  }

  function FixedParts(columns: seq<ColumnSchema>, values: seq<ColumnValue>): (r: seq<bytes>)
    requires |columns| == |values|
    ensures |r| == |columns|
  {
    seq(|columns|, i requires 0 <= i < |columns| => FixedBytes(columns[i], values[i]))
  }

  function PayloadParts(columns: seq<ColumnSchema>, values: seq<ColumnValue>): (r: seq<bytes>)
    requires |columns| == |values|
    ensures |r| == |columns|
  {
    seq(|columns|, i requires 0 <= i < |columns| => VariableBytes(columns[i], values[i]))
  }

  /** An offset and a length, both cast to u32; the length saturates at zero. */
  function DirectoryEntry(offset: nat, end: nat): (r: bytes)
    ensures |r| == 8
  {
    var from, to := offset % U32, end % U32;
    Be(from, 4) + Be(if to >= from then to - from else 0, 4)
  }

  /** The variable directory of the first `n` columns, over a payload made of these parts. */
  function Directory(columns: seq<ColumnSchema>, payload: seq<bytes>, n: nat): (r: bytes)
    requires n <= |columns| == |payload|
    ensures |r| == 8 * VariableCount(columns, n)
  {
    if n == 0 then [] else Directory(columns, payload, n - 1) + EntryOf(columns, payload, n - 1)
  }

  function EntryOf(columns: seq<ColumnSchema>, payload: seq<bytes>, i: nat): bytes
    requires i < |columns| == |payload|
  {
    if FixedWidth(columns[i].dataType).Some? then []
    else DirectoryEntry(|Concat(payload, i)|, |Concat(payload, i + 1)|)
  }

  function EncodeRowValues(schema: TableSchema, values: seq<ColumnValue>, mvcc: Mvcc): bytes
    requires |values| == |schema.columns|
  {
    var n := |values|;
    EncodeHeader(Header(FIXED_VERSION, schema.schemaVersion, schema.tableEpoch, mvcc, n % U32))
    + (NullBitmap(Nulls(values), n)
       + (Concat(FixedParts(schema.columns, values), n)
          + (Directory(schema.columns, PayloadParts(schema.columns, values), n)
             + Concat(PayloadParts(schema.columns, values), n))))
  }

  /** `encode_row_record_with_mvcc`: columns absent from the row are written as NULL. */
  function EncodeRow(schema: TableSchema, row: RowMap, mvcc: Mvcc): bytes {
    EncodeRowValues(schema, ColumnValues(schema.columns, row), mvcc)
  }

  // ---------------------------------------------------------------------------------------------
  // Version 4, read.

  datatype Layout = Layout(count: nat, fixedStart: nat, directoryStart: nat, payloadStart: nat)

  function LayoutOf(columns: seq<ColumnSchema>, count: nat): Layout
    requires count <= |columns|
  {
    var fixedStart := HEADER_LEN + DivCeil8(count);
    var directoryStart := fixedStart + FixedSum(columns, count);
    Layout(count, fixedStart, directoryStart, directoryStart + 8 * VariableCount(columns, count))
  }

  /** `fixed_row_layout`. */
  function FixedLayout(columns: seq<ColumnSchema>, b: bytes): (r: Result<Layout>)
    ensures r.Ok? ==> r.value.count <= |columns| && r.value == LayoutOf(columns, r.value.count)
  {
    match DecodeHeader(b)
    case Err => Err
    case Ok(h) =>
      if h.version != FIXED_VERSION || h.count > |columns| then Err
      else if |b| < LayoutOf(columns, h.count).payloadStart then Err
      else Ok(LayoutOf(columns, h.count))
  }

  /** A tagged value that must fill `b[start..end]`. */
  function DecodeWhole(b: bytes, start: nat, end: nat): Result<ColumnValue>
    requires start <= end <= |b|
  {
    match DecodeTuple(b[start..end], 0)
    case Fail => Err
    case Read(v, next) => if next == end - start then Ok(v) else Err
  }

  /** `decode_fixed_row_column`. */
  function DecodeColumn(columns: seq<ColumnSchema>, b: bytes, layout: Layout, i: nat): Result<ColumnValue>
    requires layout.count <= |columns|
  {
    if i >= |columns| then Err
    else if i >= layout.count then Ok(Null)
    else if HEADER_LEN + i / 8 >= |b| then Err
    else if TestBit(b[HEADER_LEN + i / 8], i % 8) then Ok(Null)
    else
      var t := columns[i].dataType;
      if FixedWidth(t).Some? then
        var start := layout.fixedStart + FixedSum(columns, i);
        var end := start + FixedWidth(t).value;
        if |b| < end then Err else DecodeFixed(t, b[start..end])
      else
        var entry := layout.directoryStart + 8 * VariableCount(columns, i);
        if |b| < entry + 8 then Err
        else
          var start := layout.payloadStart + FromBe(b[entry..entry + 4]);
          var end := start + FromBe(b[entry + 4..entry + 8]);
          if |b| < end then Err else DecodeWhole(b, start, end)
  }

  function DecodeColumns(columns: seq<ColumnSchema>, b: bytes, layout: Layout, n: nat): (r: Result<seq<ColumnValue>>)
    requires layout.count <= |columns|
    ensures r.Ok? ==> |r.value| == n
  {
    if n == 0 then Ok([])
    else
      match DecodeColumns(columns, b, layout, n - 1)
      case Err => Err
      case Ok(vs) =>
        match DecodeColumn(columns, b, layout, n - 1)
        case Err => Err
        case Ok(v) => Ok(vs + [v])
  }

  /** The row map that binds the first `n` column names in order. */
  function RowOf(columns: seq<ColumnSchema>, values: seq<ColumnValue>, n: nat): RowMap
    requires n <= |columns| == |values|
  {
    if n == 0 then map[] else RowOf(columns, values, n - 1)[columns[n - 1].name := values[n - 1]]
  }

  function DecodeFixedRow(columns: seq<ColumnSchema>, b: bytes): Result<RowMap> {
    match FixedLayout(columns, b)
    case Err => Err
    case Ok(layout) =>
      match DecodeColumns(columns, b, layout, |columns|)
      case Err => Err
      case Ok(vs) => Ok(RowOf(columns, vs, |columns|))
  }

  // ---------------------------------------------------------------------------------------------
  // Version 2.

  /** `count` pairs of a column id and a tagged value; a repeated id keeps the last value. */
  function ReadEntries(b: bytes, pos: nat, count: nat, acc: map<u32, ColumnValue>): (r: Read<map<u32, ColumnValue>>)
    requires pos <= |b|
    ensures r.Read? ==> pos <= r.next <= |b|
    decreases count
  {
    if count == 0 then Read(acc, pos)
    else
      match ReadUnsigned(b, pos, 4)
      case Fail => Fail
      case Read(id, at) =>
        match DecodeTuple(b, at)
        case Fail => Fail
        case Read(v, next) => Pow256Values(); ReadEntries(b, next, count - 1, acc[id := v])
  }

  // ---------------------------------------------------------------------------------------------
  // Version 3.

  datatype FastEntry = FastEntry(id: u32, start: nat, end: nat)

  function FastPayloadStart(count: nat): nat {
    HEADER_LEN + 12 * count
  }

  /** `fast_row_header`. */
  function FastHeader(b: bytes): (r: Result<Header>)
    ensures r.Ok? ==> FastPayloadStart(r.value.count) <= |b|
  {
    match DecodeHeader(b)
    case Err => Err
    case Ok(h) => if h.version != FAST_VERSION || |b| < FastPayloadStart(h.count) then Err else Ok(h)
  }

  /** `fast_row_directory_entry`. */
  function ReadFastEntry(b: bytes, count: nat, k: nat): (r: Result<FastEntry>)
    ensures r.Ok? ==> r.value.start <= r.value.end <= |b|
  {
    var at := HEADER_LEN + 12 * k;
    if |b| < at + 12 then Err
    else
      Pow256Values();
      var start := FastPayloadStart(count) + FromBe(b[at + 4..at + 8]);
      var end := start + FromBe(b[at + 8..at + 12]);
      if |b| < end then Err else Ok(FastEntry(FromBe(b[at..at + 4]), start, end))
  }

  /** The values of directory entries k, k + 1, ...; a repeated id keeps the last value. */
  function ReadFastEntries(b: bytes, count: nat, k: nat, acc: map<u32, ColumnValue>): Result<map<u32, ColumnValue>>
    requires k <= count
    decreases count - k
  {
    if k == count then Ok(acc)
    else
      match ReadFastEntry(b, count, k)
      case Err => Err
      case Ok(e) =>
        match DecodeWhole(b, e.start, e.end)
        case Err => Err
        case Ok(v) => ReadFastEntries(b, count, k + 1, acc[e.id := v])
  }

  /** `decode_row_record_raw`. */
  function DecodeRaw(b: bytes): Result<RowRecord> {
    if b != [] && b[0] == FAST_VERSION then
      match FastHeader(b)
      case Err => Err
      case Ok(h) =>
        match ReadFastEntries(b, h.count, 0, map[])
        case Err => Err
        case Ok(m) => Ok(RowRecord(h.schemaVersion, h.tableEpoch, h.mvcc, m))
    else
      match DecodeHeader(b)
      case Err => Err
      case Ok(h) =>
        if h.version != LEGACY_VERSION then Err
        else
          match ReadEntries(b, HEADER_LEN, h.count, map[])
          case Fail => Err
          case Read(m, next) => if next == |b| then Ok(RowRecord(h.schemaVersion, h.tableEpoch, h.mvcc, m)) else Err
  }

  /** The values of a record in the order of the schema's columns, NULL where the record has none. */
  function ValuesById(columns: seq<ColumnSchema>, m: map<u32, ColumnValue>): (r: seq<ColumnValue>)
    ensures |r| == |columns|
  {
    seq(|columns|, i requires 0 <= i < |columns| => if columns[i].columnId in m then m[columns[i].columnId] else Null)
  }

  /** `decode_row_record`, any format. */
  function DecodeRow(columns: seq<ColumnSchema>, b: bytes): Result<RowMap> {
    if b != [] && b[0] == FIXED_VERSION then DecodeFixedRow(columns, b)
    else
      match DecodeRaw(b)
      case Err => Err
      case Ok(record) => Ok(RowOf(columns, ValuesById(columns, record.values), |columns|))
  }

  /** `is_row_tombstone`. */
  predicate IsTombstone(r: RowRecord) {
    r.mvcc.xmax != 0 && r.values == map[]
  }

  /** `reencode_row_record_fast`: None when there is nothing to rewrite. */
  function Reencode(schema: TableSchema, b: bytes): Result<Option<bytes>> {
    if b != [] && b[0] == FIXED_VERSION then Ok(None)
    else
      match DecodeRaw(b)
      case Err => Err
      case Ok(record) =>
        if IsTombstone(record) then Ok(None)
        else
          var row := RowOf(schema.columns, ValuesById(schema.columns, record.values), |schema.columns|);
          Ok(Some(EncodeRow(schema, row, record.mvcc)))
  }

  // ---------------------------------------------------------------------------------------------
  // Facts about these definitions.

  lemma AtWhole(s: bytes, t: bytes)
    ensures At(s + t, 0, s) && At(s + t, |s|, t)
  {
    assert (s + t)[0..|s + t|] == s + t;
    AtConcat(s + t, 0, s, t);
  }

  lemma {:induction false} ConcatMonotone(parts: seq<bytes>, m: nat, n: nat)
    requires m <= n <= |parts|
    ensures |Concat(parts, m)| <= |Concat(parts, n)|
    decreases n
  {
    if m < n {
      ConcatMonotone(parts, m, n - 1);
    }
  }

  lemma {:induction false} ConcatAt(parts: seq<bytes>, n: nat, i: nat)
    requires i < n <= |parts|
    ensures At(Concat(parts, n), |Concat(parts, i)|, parts[i])
    decreases n
  {
    var front := Concat(parts, n - 1);
    AtWhole(front, parts[n - 1]);
    if i < n - 1 {
      ConcatAt(parts, n - 1, i);
      AtNested(front + parts[n - 1], 0, front, |Concat(parts, i)|, parts[i]);
    }
  }

  lemma {:induction false} DirectoryAt(columns: seq<ColumnSchema>, payload: seq<bytes>, n: nat, i: nat)
    requires i < n <= |columns| == |payload|
    ensures At(Directory(columns, payload, n), 8 * VariableCount(columns, i), EntryOf(columns, payload, i))
    decreases n
  {
    var front, last := Directory(columns, payload, n - 1), EntryOf(columns, payload, n - 1);
    AtWhole(front, last);
    if i < n - 1 {
      DirectoryAt(columns, payload, n - 1, i);
      AtNested(front + last, 0, front, 8 * VariableCount(columns, i), EntryOf(columns, payload, i));
    }
  }

  lemma {:induction false} PartSizes(columns: seq<ColumnSchema>, values: seq<ColumnValue>, n: nat)
    requires n <= |columns| == |values|
    ensures |Concat(FixedParts(columns, values), n)| == FixedSum(columns, n)
    decreases n
  {
    if n > 0 {
      PartSizes(columns, values, n - 1);
    }
  }

  lemma AtNested(b: bytes, pos: nat, s: bytes, off: nat, t: bytes)
    requires At(b, pos, s) && At(s, off, t)
    ensures At(b, pos + off, t)
  {
    forall k | 0 <= k < |t| ensures b[pos + off + k] == t[k] {
      assert t[k] == s[off..off + |t|][k] == s[off + k];
      assert s[off + k] == b[pos..pos + |s|][off + k];
    }
  }

  lemma HeaderRoundTrip(h: Header, rest: bytes)
    ensures DecodeHeader(EncodeHeader(h) + rest) == Ok(h)
  {
    var b := EncodeHeader(h) + rest;
    Pow256Values();
    assert b[0] == h.version;
    assert b[1..5] == Be(h.schemaVersion, 4);
    assert b[5..13] == Be(h.tableEpoch, 8);
    assert b[13..21] == Be(h.mvcc.xmin, 8);
    assert b[21..29] == Be(h.mvcc.xmax, 8);
    assert b[29..33] == Be(h.count, 4);
    FromBeOfBe(h.schemaVersion, 4);
    FromBeOfBe(h.tableEpoch, 8);
    FromBeOfBe(h.mvcc.xmin, 8);
    FromBeOfBe(h.mvcc.xmax, 8);
    FromBeOfBe(h.count, 4);
  }

  lemma {:induction false} RowOfValues(columns: seq<ColumnSchema>, values: seq<ColumnValue>, n: nat, i: nat)
    requires n <= |columns| == |values| && i < n && DistinctNames(columns)
    ensures RowValue(RowOf(columns, values, n), columns[i].name) == values[i]
    decreases n
  {
    if i < n - 1 {
      assert columns[i].name != columns[n - 1].name;
      RowOfValues(columns, values, n - 1, i);
    }
  }

  lemma {:induction false} RowOfNames(columns: seq<ColumnSchema>, values: seq<ColumnValue>, n: nat, name: string)
    requires n <= |columns| == |values|
    ensures name in RowOf(columns, values, n) <==> exists i :: 0 <= i < n && columns[i].name == name
    decreases n
  {
    if n > 0 {
      RowOfNames(columns, values, n - 1, name);
    }
  }

  lemma {:induction false} DecodeColumnsAt(columns: seq<ColumnSchema>, b: bytes, layout: Layout, n: nat, i: nat)
    requires layout.count <= |columns| && i < n && DecodeColumns(columns, b, layout, n).Ok?
    ensures DecodeColumn(columns, b, layout, i) == Ok(DecodeColumns(columns, b, layout, n).value[i])
    decreases n
  {
    if i < n - 1 {
      DecodeColumnsAt(columns, b, layout, n - 1, i);
    }
  }

  lemma {:induction false} DecodeColumnsFrom(columns: seq<ColumnSchema>, b: bytes, layout: Layout, values: seq<ColumnValue>)
    requires layout.count <= |columns|
    requires forall i :: 0 <= i < |values| ==> DecodeColumn(columns, b, layout, i) == Ok(values[i])
    ensures DecodeColumns(columns, b, layout, |values|) == Ok(values)
    decreases |values|
  {
    if values != [] {
      var n := |values| - 1;
      DecodeColumnsFrom(columns, b, layout, values[..n]);
      assert values == values[..n] + [values[n]];
    }
  }
}
