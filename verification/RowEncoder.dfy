/** `encode_row_record_with_mvcc` as the source runs it: one buffer, resized first and then written in place. */
module RowEncoder {
  import opened Basics
  import opened Bytes
  import opened Values
  import opened TupleCodec
  import opened FixedColumns
  import opened RowFormat

  /** `buf[off..off + s.len()].copy_from_slice(s)`. */
  function WriteAt(buf: bytes, off: nat, s: bytes): (r: bytes)
    requires off + |s| <= |buf|
    ensures |r| == |buf|
  {
    buf[..off] + s + buf[off + |s|..]
  }

  /** The buffer while column `i` is next: every region is written up to `i` and zero after. */
  ghost function Partial(header: bytes, bitmap: bytes, fixed: bytes, fixedLeft: nat, directory: bytes, directoryLeft: nat): bytes {
    header + bitmap + (fixed + ZeroBytes(fixedLeft)) + (directory + ZeroBytes(directoryLeft))
  }

  lemma ZeroSuffix(n: nat, k: nat)
    requires k <= n
    ensures ZeroBytes(n)[k..] == ZeroBytes(n - k) && ZeroBytes(k) + ZeroBytes(n - k) == ZeroBytes(n)
  {
  }

  lemma WriteBit(header: bytes, bitmap: bytes, rest: bytes, at: nat, b: byte)
    requires at < |bitmap|
    ensures (header + bitmap + rest)[|header| + at := b] == header + bitmap[at := b] + rest
  {
  }

  lemma WriteInside(front: bytes, done: bytes, left: nat, back: bytes, s: bytes)
    requires |s| <= left
    ensures WriteAt(front + (done + ZeroBytes(left)) + back, |front| + |done|, s)
      == front + (done + s + ZeroBytes(left - |s|)) + back
  {
    ZeroSuffix(left, |s|);
    var buf := front + (done + ZeroBytes(left)) + back;
    assert buf[..|front| + |done|] == front + done;
    assert buf[|front| + |done| + |s|..] == ZeroBytes(left)[|s|..] + back;
  }

  lemma WriteFixed(header: bytes, bitmap: bytes, fixed: bytes, fixedLeft: nat, directory: bytes, directoryLeft: nat, s: bytes)
    requires |s| <= fixedLeft
    ensures WriteAt(Partial(header, bitmap, fixed, fixedLeft, directory, directoryLeft), |header| + |bitmap| + |fixed|, s)
      == Partial(header, bitmap, fixed + s, fixedLeft - |s|, directory, directoryLeft)
  {
    WriteInside(header + bitmap, fixed, fixedLeft, directory + ZeroBytes(directoryLeft), s);
  }

  lemma WriteEntry(header: bytes, bitmap: bytes, fixed: bytes, fixedLeft: nat, directory: bytes, directoryLeft: nat, s: bytes, t: bytes)
    requires |s| + |t| <= directoryLeft
    ensures var at := |header| + |bitmap| + |fixed| + fixedLeft + |directory|;
      WriteAt(WriteAt(Partial(header, bitmap, fixed, fixedLeft, directory, directoryLeft), at, s), at + |s|, t)
      == Partial(header, bitmap, fixed, fixedLeft, directory + (s + t), directoryLeft - |s + t|)
  {
    var front := header + bitmap + (fixed + ZeroBytes(fixedLeft));
    WriteInside(front, directory, directoryLeft, [], s);
    WriteInside(front, directory + s, directoryLeft - |s|, [], t);
    assert directory + s + t == directory + (s + t);
    assert front + (directory + ZeroBytes(directoryLeft)) + [] == front + (directory + ZeroBytes(directoryLeft));
    assert front + (directory + s + ZeroBytes(directoryLeft - |s|)) + [] == front + (directory + s + ZeroBytes(directoryLeft - |s|));
    assert front + (directory + s + t + ZeroBytes(directoryLeft - |s| - |t|)) + []
        == front + (directory + s + t + ZeroBytes(directoryLeft - |s| - |t|));
  }

  /** The header and the zeroed regions, after the three resizes. */
  method Prepare(schema: TableSchema, mvcc: Mvcc) returns (buf: bytes, fixedStart: nat, directoryStart: nat)
    ensures var n := |schema.columns|;
      && fixedStart == HEADER_LEN + DivCeil8(n) && directoryStart == fixedStart + FixedSum(schema.columns, n)
      && buf == Partial(EncodeHeader(Header(FIXED_VERSION, schema.schemaVersion, schema.tableEpoch, mvcc, n % U32)),
           ZeroBytes(DivCeil8(n)), [], FixedSum(schema.columns, n), [], 8 * VariableCount(schema.columns, n))
  {
    var n := |schema.columns|;
    var fixedLen, variableColumns := 0, 0;
    for i := 0 to n
      invariant fixedLen == FixedSum(schema.columns, i) && variableColumns == VariableCount(schema.columns, i)
    {
      if FixedWidth(schema.columns[i].dataType).Some? {
        fixedLen := fixedLen + FixedWidth(schema.columns[i].dataType).value;
      } else {
        variableColumns := variableColumns + 1;
      }
    }
    buf := EncodeHeader(Header(FIXED_VERSION, schema.schemaVersion, schema.tableEpoch, mvcc, n % U32));
    buf := buf + ZeroBytes(DivCeil8(n));
    fixedStart := |buf|;
    assert [] + ZeroBytes(fixedLen) == ZeroBytes(fixedLen);
    buf := buf + ZeroBytes(fixedLen);
    directoryStart := |buf|;
    assert [] + ZeroBytes(8 * variableColumns) == ZeroBytes(8 * variableColumns);
    buf := buf + ZeroBytes(8 * variableColumns);
  }

  /** The encoder's variables once the first `i` columns are written, and the bitmap has `marked` columns. */
  ghost predicate Written(schema: TableSchema, values: seq<ColumnValue>, header: bytes, marked: nat, i: nat,
      buf: bytes, fixedOffset: nat, variableIdx: nat, payload: bytes)
  {
    var columns, n := schema.columns, |schema.columns|;
    && |values| == n && i <= n && marked <= n && |header| == HEADER_LEN
    && fixedOffset == FixedSum(columns, i) <= FixedSum(columns, n)
    && variableIdx == VariableCount(columns, i) <= VariableCount(columns, n)
    && payload == Concat(PayloadParts(columns, values), i)
    && |Concat(FixedParts(columns, values), i)| == fixedOffset
    && buf == Partial(header, NullBitmap(Nulls(values), marked),
         Concat(FixedParts(columns, values), i), FixedSum(columns, n) - fixedOffset,
         Directory(columns, PayloadParts(columns, values), i), 8 * (VariableCount(columns, n) - variableIdx))
  }

  /** The null bit of column `i`. */
  method MarkNull(schema: TableSchema, ghost values: seq<ColumnValue>, ghost header: bytes, i: nat, value: ColumnValue,
      buf: bytes, ghost fixedOffset: nat, ghost variableIdx: nat, ghost payload: bytes) returns (r: bytes)
    requires i < |schema.columns| && Written(schema, values, header, i, i, buf, fixedOffset, variableIdx, payload)
    requires value == values[i]
    ensures Written(schema, values, header, i + 1, i, r, fixedOffset, variableIdx, payload)
  {
    hide NullBitmap, Partial, SetByteBit, Concat, Directory, FixedParts, PayloadParts, FixedSum, VariableCount;
    BitmapStep(Nulls(values), i);
    r := buf;
    if value.Null? {
      BitInBuffer(header, NullBitmap(Nulls(values), i), Concat(FixedParts(schema.columns, values), i),
        FixedSum(schema.columns, |schema.columns|) - fixedOffset, Directory(schema.columns, PayloadParts(schema.columns, values), i),
        8 * (VariableCount(schema.columns, |schema.columns|) - variableIdx), i / 8,
        SetByteBit(NullBitmap(Nulls(values), i)[i / 8], i % 8));
      r := buf[HEADER_LEN + i / 8 := SetByteBit(buf[HEADER_LEN + i / 8], i % 8)];
    }
  }

  method WriteFixedColumn(schema: TableSchema, ghost values: seq<ColumnValue>, ghost header: bytes, i: nat, value: ColumnValue,
      width: nat, fixedStart: nat, buf: bytes, fixedOffset: nat, ghost variableIdx: nat, ghost payload: bytes) returns (r: bytes)
    requires i < |schema.columns| && Written(schema, values, header, i + 1, i, buf, fixedOffset, variableIdx, payload)
    requires value == values[i] && FixedWidth(schema.columns[i].dataType) == Some(width)
    requires fixedStart == HEADER_LEN + DivCeil8(|schema.columns|)
    ensures Written(schema, values, header, i + 1, i + 1, r, fixedOffset + width, variableIdx, payload)
  {
    hide NullBitmap, Partial, EncodeFixed, FixedWidth, WriteAt, EncodeTuple;
    ghost var columns, n := schema.columns, |schema.columns|;
    ghost var bitmap, fixed := NullBitmap(Nulls(values), i + 1), Concat(FixedParts(columns, values), i);
    ghost var directory := Directory(columns, PayloadParts(columns, values), i);
    ghost var fixedLeft, directoryLeft := FixedSum(columns, n) - fixedOffset, 8 * (VariableCount(columns, n) - variableIdx);
    SumsMonotone(columns, i + 1, n);
    WriteFixed(header, bitmap, fixed, fixedLeft, directory, directoryLeft, FixedBytes(columns[i], value));
    ZeroWrite(header, bitmap, fixed, fixedLeft, directory, directoryLeft, width);
    PartialLength(header, bitmap, fixed, fixedLeft, directory, directoryLeft);
    assert payload + [] == payload && directory + [] == directory;
    r := buf;
    if !value.Null? {
      r := WriteAt(buf, fixedStart + fixedOffset, EncodeFixed(width, value));
    }
    assert r == Partial(header, bitmap, fixed + FixedBytes(columns[i], value), fixedLeft - width, directory, directoryLeft);
    assert Concat(FixedParts(columns, values), i + 1) == fixed + FixedBytes(columns[i], value);
    assert Directory(columns, PayloadParts(columns, values), i + 1) == directory;
    assert Concat(PayloadParts(columns, values), i + 1) == payload;
    assert FixedSum(columns, i + 1) == fixedOffset + width && VariableCount(columns, i + 1) == variableIdx;
    hide Concat, Directory, FixedSum, VariableCount, FixedParts, PayloadParts, FixedBytes;
  }

  method WriteVariableColumn(schema: TableSchema, ghost values: seq<ColumnValue>, ghost header: bytes, i: nat, value: ColumnValue,
      directoryStart: nat, buf: bytes, ghost fixedOffset: nat, variableIdx: nat, payload: bytes) returns (r: bytes, payload': bytes)
    requires i < |schema.columns| && Written(schema, values, header, i + 1, i, buf, fixedOffset, variableIdx, payload)
    requires value == values[i] && FixedWidth(schema.columns[i].dataType).None?
    requires directoryStart == HEADER_LEN + DivCeil8(|schema.columns|) + FixedSum(schema.columns, |schema.columns|)
    ensures Written(schema, values, header, i + 1, i + 1, r, fixedOffset, variableIdx + 1, payload')
  {
    hide NullBitmap, Partial, EncodeFixed, FixedWidth, WriteAt, EncodeTuple, Be, DirectoryEntry;
    ghost var columns, n := schema.columns, |schema.columns|;
    ghost var bitmap, fixed := NullBitmap(Nulls(values), i + 1), Concat(FixedParts(columns, values), i);
    ghost var directory := Directory(columns, PayloadParts(columns, values), i);
    ghost var fixedLeft, directoryLeft := FixedSum(columns, n) - fixedOffset, 8 * (VariableCount(columns, n) - variableIdx);
    SumsMonotone(columns, i + 1, n);
    var offset := |payload| % U32;
    payload' := payload;
    if !value.Null? {
      payload' := payload + EncodeTuple(value);
    }
    assert payload' == payload + VariableBytes(columns[i], value);
    var end := |payload'| % U32;
    var len := if end >= offset then end - offset else 0;
    assert fixed + FixedBytes(columns[i], value) == fixed;
    EntryBytes(|payload|, |payload'|);
    WriteEntry(header, bitmap, fixed, fixedLeft, directory, directoryLeft, Be(offset, 4), Be(len, 4));
    PartialLength(header, bitmap, fixed, fixedLeft, directory, directoryLeft);
    r := WriteAt(buf, directoryStart + 8 * variableIdx, Be(offset, 4));
    r := WriteAt(r, directoryStart + 8 * variableIdx + 4, Be(len, 4));
  }

  method EncodeRowRecord(schema: TableSchema, row: RowMap, mvcc: Mvcc) returns (r: bytes)
    ensures r == EncodeRow(schema, row, mvcc)
  {
    hide NullBitmap, EncodeTuple, FixedWidth, Partial, EncodeHeader, Written;
    var columns, n := schema.columns, |schema.columns|;
    ghost var values := ColumnValues(columns, row);
    ghost var header := EncodeHeader(Header(FIXED_VERSION, schema.schemaVersion, schema.tableEpoch, mvcc, n % U32));
    var buf, fixedStart, directoryStart := Prepare(schema, mvcc);
    var fixedOffset: nat, variableIdx: nat, payload: bytes := 0, 0, [];
    InitiallyWritten(schema, values, header, buf);
    var i := 0;
    while i < n
      invariant 0 <= i <= n
      invariant Written(schema, values, header, i, i, buf, fixedOffset, variableIdx, payload)
    {
      var value := RowValue(row, columns[i].name);
      buf := MarkNull(schema, values, header, i, value, buf, fixedOffset, variableIdx, payload);
      if FixedWidth(columns[i].dataType).Some? {
        var width := FixedWidth(columns[i].dataType).value;
        buf := WriteFixedColumn(schema, values, header, i, value, width, fixedStart, buf, fixedOffset, variableIdx, payload);
        fixedOffset := fixedOffset + width;
      } else {
        buf, payload := WriteVariableColumn(schema, values, header, i, value, directoryStart, buf, fixedOffset, variableIdx, payload);
        variableIdx := variableIdx + 1;
      }
      i := i + 1;
    }
    r := buf + payload;
    FinallyWritten(schema, values, header, buf, fixedOffset, variableIdx, payload);
  }

  lemma InitiallyWritten(schema: TableSchema, values: seq<ColumnValue>, header: bytes, buf: bytes)
    requires |values| == |schema.columns| && |header| == HEADER_LEN
    requires var n := |values|;
      buf == Partial(header, ZeroBytes(DivCeil8(n)), [], FixedSum(schema.columns, n), [], 8 * VariableCount(schema.columns, n))
    ensures Written(schema, values, header, 0, 0, buf, 0, 0, [])
  {
  }

  lemma FinallyWritten(schema: TableSchema, values: seq<ColumnValue>, header: bytes, buf: bytes,
      fixedOffset: nat, variableIdx: nat, payload: bytes)
    requires Written(schema, values, header, |values|, |values|, buf, fixedOffset, variableIdx, payload)
    ensures var n, columns := |values|, schema.columns;
      buf + payload == header + (NullBitmap(Nulls(values), n) + (Concat(FixedParts(columns, values), n)
        + (Directory(columns, PayloadParts(columns, values), n) + Concat(PayloadParts(columns, values), n))))
  {
    hide NullBitmap, Partial, Concat, Directory;
    var n, columns := |values|, schema.columns;
    Assembled(header, NullBitmap(Nulls(values), n), Concat(FixedParts(columns, values), n),
      Directory(columns, PayloadParts(columns, values), n), payload);
  }

  lemma BitmapStep(nulls: seq<bool>, i: nat)
    requires i < |nulls|
    ensures NullBitmap(nulls, i + 1) ==
      if nulls[i] then NullBitmap(nulls, i)[i / 8 := SetByteBit(NullBitmap(nulls, i)[i / 8], i % 8)] else NullBitmap(nulls, i)
  {
  }

  lemma BitInBuffer(header: bytes, bitmap: bytes, fixed: bytes, fixedLeft: nat, directory: bytes, directoryLeft: nat, at: nat, b: byte)
    requires at < |bitmap|
    ensures var buf := Partial(header, bitmap, fixed, fixedLeft, directory, directoryLeft);
      && |header| + at < |buf| && buf[|header| + at] == bitmap[at]
      && buf[|header| + at := b] == Partial(header, bitmap[at := b], fixed, fixedLeft, directory, directoryLeft)
  {
    var rest := (fixed + ZeroBytes(fixedLeft)) + (directory + ZeroBytes(directoryLeft));
    assert Partial(header, bitmap, fixed, fixedLeft, directory, directoryLeft) == header + bitmap + rest;
    assert Partial(header, bitmap[at := b], fixed, fixedLeft, directory, directoryLeft) == header + bitmap[at := b] + rest;
    WriteBit(header, bitmap, rest, at, b);
  }

  lemma ZeroWrite(header: bytes, bitmap: bytes, fixed: bytes, fixedLeft: nat, directory: bytes, directoryLeft: nat, width: nat)
    requires width <= fixedLeft
    ensures Partial(header, bitmap, fixed, fixedLeft, directory, directoryLeft)
      == Partial(header, bitmap, fixed + ZeroBytes(width), fixedLeft - width, directory, directoryLeft)
  {
    ZeroSuffix(fixedLeft, width);
    assert fixed + ZeroBytes(fixedLeft) == fixed + ZeroBytes(width) + ZeroBytes(fixedLeft - width);
  }

  lemma PartialLength(header: bytes, bitmap: bytes, fixed: bytes, fixedLeft: nat, directory: bytes, directoryLeft: nat)
    ensures |Partial(header, bitmap, fixed, fixedLeft, directory, directoryLeft)|
      == |header| + |bitmap| + |fixed| + fixedLeft + |directory| + directoryLeft
  {
  }

  lemma EntryBytes(from: nat, to: nat)
    ensures var offset, end := from % U32, to % U32;
      DirectoryEntry(from, to) == Be(offset, 4) + Be(if end >= offset then end - offset else 0, 4)
  {
  }

  lemma Assembled(header: bytes, bitmap: bytes, fixed: bytes, directory: bytes, payload: bytes)
    ensures Partial(header, bitmap, fixed, 0, directory, 0) + payload == header + (bitmap + (fixed + (directory + payload)))
  {
    assert fixed + ZeroBytes(0) == fixed && directory + ZeroBytes(0) == directory;
  }
}
