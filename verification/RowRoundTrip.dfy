/** Version 4 rows: what the encoder writes is what the decoder recomputes; growth and migration keep rows. */
module RowRoundTrip {
  import opened Basics
  import opened Bytes
  import opened Values
  import opened Reader
  import opened TupleCodec
  import opened FixedColumns
  import opened RowFormat

  /** Every value is NULL, or of its fixed column's own variant, or encodable in its variable column. */
  predicate WellTyped(columns: seq<ColumnSchema>, values: seq<ColumnValue>) {
    && |values| == |columns|
    && forall i :: 0 <= i < |columns| ==> ColumnAccepts(columns[i], values[i])
  }

  predicate ColumnAccepts(c: ColumnSchema, v: ColumnValue) {
    v.Null? || if FixedWidth(c.dataType).Some? then FixedVariant(c.dataType, v) else WellSized(v)
  }

  /** The counts and offsets that a v4 row stores fit the u32 they are written as. */
  predicate RowFits(columns: seq<ColumnSchema>, values: seq<ColumnValue>) {
    |columns| == |values| < U32 && |Concat(PayloadParts(columns, values), |values|)| < U32
  }

  function RowHeader(schema: TableSchema, mvcc: Mvcc): Header {
    Header(FIXED_VERSION, schema.schemaVersion, schema.tableEpoch, mvcc, |schema.columns| % U32)
  }

  /** The header of an encoded row is the one it was given. */
  lemma EncodedHeader(schema: TableSchema, values: seq<ColumnValue>, mvcc: Mvcc)
    requires |values| == |schema.columns|
    ensures DecodeHeader(EncodeRowValues(schema, values, mvcc)) == Ok(RowHeader(schema, mvcc))
  {
    var n := |values|;
    HeaderRoundTrip(RowHeader(schema, mvcc), NullBitmap(Nulls(values), n)
      + (Concat(FixedParts(schema.columns, values), n)
         + (Directory(schema.columns, PayloadParts(schema.columns, values), n) + Concat(PayloadParts(schema.columns, values), n))));
  }

  /** Four regions of `b`, where layout `l` says they are. */
  ghost predicate RegionsAt(b: bytes, l: Layout, bitmap: bytes, fixed: bytes, directory: bytes, payload: bytes) {
    && At(b, HEADER_LEN, bitmap)
    && At(b, l.fixedStart, fixed)
    && At(b, l.directoryStart, directory)
    && At(b, l.payloadStart, payload)
  }

  /** The encoder writes its regions where the layout recomputed from the column count says. */
  lemma EncodedRegions(schema: TableSchema, values: seq<ColumnValue>, mvcc: Mvcc)
    requires |values| == |schema.columns|
    ensures var n := |values|;
      RegionsAt(EncodeRowValues(schema, values, mvcc), LayoutOf(schema.columns, n), NullBitmap(Nulls(values), n),
        Concat(FixedParts(schema.columns, values), n), Directory(schema.columns, PayloadParts(schema.columns, values), n),
        Concat(PayloadParts(schema.columns, values), n))
      && LayoutOf(schema.columns, n).payloadStart <= |EncodeRowValues(schema, values, mvcc)|
  {
    hide NullBitmap, Concat, Directory, FixedParts, PayloadParts;
    var n := |values|;
    PartSizes(schema.columns, values, n);
    FiveRegions(EncodeHeader(RowHeader(schema, mvcc)), LayoutOf(schema.columns, n), NullBitmap(Nulls(values), n),
      Concat(FixedParts(schema.columns, values), n),
      Directory(schema.columns, PayloadParts(schema.columns, values), n), Concat(PayloadParts(schema.columns, values), n));
  }

  lemma FiveRegions(h: bytes, l: Layout, bitmap: bytes, fixed: bytes, directory: bytes, payload: bytes)
    requires |h| == HEADER_LEN && l.fixedStart == HEADER_LEN + |bitmap|
    requires l.directoryStart == l.fixedStart + |fixed| && l.payloadStart == l.directoryStart + |directory|
    ensures RegionsAt(h + (bitmap + (fixed + (directory + payload))), l, bitmap, fixed, directory, payload)
    ensures l.payloadStart <= |h + (bitmap + (fixed + (directory + payload)))|
  {
    var b := h + (bitmap + (fixed + (directory + payload)));
    AtWhole(h, bitmap + (fixed + (directory + payload)));
    AtConcat(b, HEADER_LEN, bitmap, fixed + (directory + payload));
    AtConcat(b, l.fixedStart, fixed, directory + payload);
    AtConcat(b, l.directoryStart, directory, payload);
  }

  /** A directory entry at `entry` points `from` bytes into the payload, where `value` is. */
  ghost predicate EntryPointsTo(b: bytes, entry: nat, payloadStart: nat, from: nat, value: bytes) {
    && from + |value| < U32
    && At(b, entry, Be(from, 4))
    && At(b, entry + 4, Be(|value|, 4))
    && At(b, payloadStart + from, value)
  }

  /** Where the decoder of column `i` looks, it finds this column's null bit and value. */
  ghost predicate ColumnStored(b: bytes, l: Layout, columns: seq<ColumnSchema>, i: nat, v: ColumnValue, from: nat)
    requires i < |columns|
  {
    && HEADER_LEN + i / 8 < |b|
    && (TestBit(b[HEADER_LEN + i / 8], i % 8) <==> v.Null?)
    && (FixedWidth(columns[i].dataType).Some? ==> At(b, l.fixedStart + FixedSum(columns, i), FixedBytes(columns[i], v)))
    && (FixedWidth(columns[i].dataType).None? ==>
          EntryPointsTo(b, l.directoryStart + 8 * VariableCount(columns, i), l.payloadStart, from, VariableBytes(columns[i], v)))
  }

  lemma NullBitAt(nulls: seq<bool>, b: bytes, k: nat)
    requires At(b, HEADER_LEN, NullBitmap(nulls, |nulls|)) && k < 8 * DivCeil8(|nulls|)
    ensures HEADER_LEN + k / 8 < |b|
    ensures TestBit(b[HEADER_LEN + k / 8], k % 8) <==> k < |nulls| && nulls[k]
  {
    NullBitmapBits(nulls, |nulls|, k);
    ByteAt(b, HEADER_LEN, NullBitmap(nulls, |nulls|), k / 8);
  }

  lemma ByteAt(b: bytes, pos: nat, s: bytes, k: nat)
    requires At(b, pos, s) && k < |s|
    ensures pos + k < |b| && b[pos + k] == s[k]
  {
    assert s[k] == b[pos..pos + |s|][k];
  }

  lemma PartAt(b: bytes, start: nat, parts: seq<bytes>, i: nat, part: bytes, off: nat)
    requires At(b, start, Concat(parts, |parts|)) && i < |parts| && parts[i] == part && |Concat(parts, i)| == off
    ensures At(b, start + off, part)
  {
    ConcatAt(parts, |parts|, i);
    AtNested(b, start, Concat(parts, |parts|), off, part);
  }

  lemma EntryAt(b: bytes, entry: nat, payloadStart: nat, from: nat, value: bytes)
    requires from + |value| < U32
    requires At(b, entry, DirectoryEntry(from, from + |value|)) && At(b, payloadStart + from, value)
    ensures EntryPointsTo(b, entry, payloadStart, from, value)
  {
    hide Be, At;
    AtConcat(b, entry, Be(from, 4), Be(|value|, 4));
  }

  lemma EncodedFixed(schema: TableSchema, values: seq<ColumnValue>, mvcc: Mvcc, i: nat)
    requires |values| == |schema.columns| && i < |values|
    ensures At(EncodeRowValues(schema, values, mvcc), LayoutOf(schema.columns, |values|).fixedStart + FixedSum(schema.columns, i),
      FixedBytes(schema.columns[i], values[i]))
  {
    hide EncodeRowValues, NullBitmap, FixedBytes, Concat, Directory, At;
    EncodedRegions(schema, values, mvcc);
    PartSizes(schema.columns, values, i);
    PartAt(EncodeRowValues(schema, values, mvcc), LayoutOf(schema.columns, |values|).fixedStart,
      FixedParts(schema.columns, values), i, FixedBytes(schema.columns[i], values[i]), FixedSum(schema.columns, i));
  }

  lemma EncodedVariable(schema: TableSchema, values: seq<ColumnValue>, mvcc: Mvcc, i: nat)
    requires |values| == |schema.columns| && RowFits(schema.columns, values) && i < |values|
    requires FixedWidth(schema.columns[i].dataType).None?
    ensures var l := LayoutOf(schema.columns, |values|);
      EntryPointsTo(EncodeRowValues(schema, values, mvcc), l.directoryStart + 8 * VariableCount(schema.columns, i), l.payloadStart,
        |Concat(PayloadParts(schema.columns, values), i)|, VariableBytes(schema.columns[i], values[i]))
  {
    hide EncodeRowValues, NullBitmap, VariableBytes, Directory, FixedParts, At, DirectoryEntry, EntryPointsTo;
    var columns, n := schema.columns, |values|;
    var b, l := EncodeRowValues(schema, values, mvcc), LayoutOf(columns, n);
    var payload := PayloadParts(columns, values);
    var entry, from := 8 * VariableCount(columns, i), |Concat(payload, i)|;
    EncodedRegions(schema, values, mvcc);
    ConcatMonotone(payload, i + 1, n);
    DirectoryAt(columns, payload, n, i);
    AtNested(b, l.directoryStart, Directory(columns, payload, n), entry, DirectoryEntry(from, from + |payload[i]|));
    PartAt(b, l.payloadStart, payload, i, payload[i], from);
    EntryAt(b, l.directoryStart + entry, l.payloadStart, from, payload[i]);
  }

  /** Every column of an encoded row is stored where the decoder looks. */
  lemma EncodedColumn(schema: TableSchema, values: seq<ColumnValue>, mvcc: Mvcc, i: nat)
    requires |values| == |schema.columns| && RowFits(schema.columns, values) && i < |values|
    ensures ColumnStored(EncodeRowValues(schema, values, mvcc), LayoutOf(schema.columns, |values|), schema.columns, i, values[i],
      |Concat(PayloadParts(schema.columns, values), i)|)
  {
    hide EncodeRowValues, NullBitmap, FixedBytes, VariableBytes, TestBit, At, EntryPointsTo, Directory, Concat;
    EncodedRegions(schema, values, mvcc);
    NullBitAt(Nulls(values), EncodeRowValues(schema, values, mvcc), i);
    EncodedFixed(schema, values, mvcc, i);
    if FixedWidth(schema.columns[i].dataType).None? {
      EncodedVariable(schema, values, mvcc, i);
    }
  }

  lemma LayoutOfPrefix(columns: seq<ColumnSchema>, more: seq<ColumnSchema>, i: nat)
    requires columns <= more && i <= |columns|
    ensures LayoutOf(more, |columns|) == LayoutOf(columns, |columns|)
    ensures FixedSum(more, i) == FixedSum(columns, i) && VariableCount(more, i) == VariableCount(columns, i)
  {
    SumsOfPrefix(columns, more, |columns|);
    SumsOfPrefix(columns, more, i);
  }

  lemma WholeAt(b: bytes, start: nat, v: ColumnValue)
    requires WellSized(v) && At(b, start, EncodeTuple(v))
    ensures DecodeWhole(b, start, start + |EncodeTuple(v)|) == Ok(v)
  {
    var part := b[start..start + |EncodeTuple(v)|];
    assert part[0..|part|] == part;
    TupleRoundTrip(v, part, 0);
  }

  lemma EntryRead(b: bytes, entry: nat, payloadStart: nat, from: nat, value: bytes)
    requires EntryPointsTo(b, entry, payloadStart, from, value)
    ensures entry + 8 <= |b|
    ensures FromBe(b[entry..entry + 4]) == from && FromBe(b[entry + 4..entry + 8]) == |value|
    ensures At(b, payloadStart + from, value)
  {
    Pow256Values();
    FromBeOfBe(from, 4);
    FromBeOfBe(|value|, 4);
  }

  lemma StoredFixed(b: bytes, start: nat, t: DataType, v: ColumnValue)
    requires FixedVariant(t, v) && At(b, start, EncodeFixed(FixedWidth(t).value, v))
    ensures start + FixedWidth(t).value <= |b| && DecodeFixed(t, b[start..start + FixedWidth(t).value]) == Ok(v)
  {
    FixedRoundTrip(t, v);
  }

  lemma StoredVariable(b: bytes, entry: nat, payloadStart: nat, from: nat, v: ColumnValue)
    requires EntryPointsTo(b, entry, payloadStart, from, EncodeTuple(v)) && WellSized(v)
    ensures entry + 8 <= |b|
    ensures var start := payloadStart + FromBe(b[entry..entry + 4]);
      var end := start + FromBe(b[entry + 4..entry + 8]);
      end <= |b| && DecodeWhole(b, start, end) == Ok(v)
  {
    EntryRead(b, entry, payloadStart, from, EncodeTuple(v));
    WholeAt(b, payloadStart + from, v);
  }

  /** A stored column decodes to its value. */
  lemma DecodeStoredColumn(columns: seq<ColumnSchema>, b: bytes, l: Layout, i: nat, v: ColumnValue, from: nat)
    requires i < l.count <= |columns| && ColumnStored(b, l, columns, i, v, from) && ColumnAccepts(columns[i], v)
    ensures DecodeColumn(columns, b, l, i) == Ok(v)
  {
    hide TestBit, FromBe, DecodeFixed, DecodeWhole, EncodeTuple, EncodeFixed;
    if !v.Null? {
      if FixedWidth(columns[i].dataType).Some? {
        StoredFixed(b, l.fixedStart + FixedSum(columns, i), columns[i].dataType, v);
      } else {
        StoredVariable(b, l.directoryStart + 8 * VariableCount(columns, i), l.payloadStart, from, v);
      }
    }
  }

  /** The values of a stored row under an extended schema: the row's own, then NULLs. */
  function Extended(values: seq<ColumnValue>, n: nat): (r: seq<ColumnValue>)
    requires |values| <= n
    ensures |r| == n && forall i :: 0 <= i < n ==> r[i] == if i < |values| then values[i] else Null
  {
    seq(n, i requires 0 <= i < n => if i < |values| then values[i] else Null)
  }

  lemma StoredColumnOfMore(schema: TableSchema, more: seq<ColumnSchema>, values: seq<ColumnValue>, mvcc: Mvcc, i: nat)
    requires WellTyped(schema.columns, values) && RowFits(schema.columns, values)
    requires schema.columns <= more && i < |more|
    ensures DecodeColumn(more, EncodeRowValues(schema, values, mvcc), LayoutOf(more, |values|), i)
      == Ok(if i < |values| then values[i] else Null)
  {
    hide EncodeRowValues, Concat, FixedBytes, VariableBytes, EntryPointsTo, TestBit, At;
    if i < |values| {
      var b := EncodeRowValues(schema, values, mvcc);
      EncodedColumn(schema, values, mvcc, i);
      LayoutOfPrefix(schema.columns, more, i);
      var from := |Concat(PayloadParts(schema.columns, values), i)|;
      assert ColumnStored(b, LayoutOf(more, |values|), more, i, values[i], from);
      assert ColumnAccepts(schema.columns[i], values[i]);
      DecodeStoredColumn(more, b, LayoutOf(more, |values|), i, values[i], from);
    }
  }

  lemma EncodedLayout(schema: TableSchema, more: seq<ColumnSchema>, values: seq<ColumnValue>, mvcc: Mvcc)
    requires |values| == |schema.columns| < U32 && schema.columns <= more
    ensures FixedLayout(more, EncodeRowValues(schema, values, mvcc)) == Ok(LayoutOf(more, |values|))
    ensures EncodeRowValues(schema, values, mvcc)[0] == FIXED_VERSION
  {
    hide EncodeRowValues, DecodeHeader, FixedLayout, NullBitmap, Concat, Directory, FixedParts, PayloadParts, FixedSum, VariableCount, At;
    var b := EncodeRowValues(schema, values, mvcc);
    EncodedHeader(schema, values, mvcc);
    EncodedRegions(schema, values, mvcc);
    LayoutOfPrefix(schema.columns, more, 0);
    LayoutFromHeader(more, b, RowHeader(schema, mvcc));
  }

  lemma LayoutFromHeader(columns: seq<ColumnSchema>, b: bytes, h: Header)
    requires DecodeHeader(b) == Ok(h) && h.version == FIXED_VERSION && h.count <= |columns|
    requires LayoutOf(columns, h.count).payloadStart <= |b|
    ensures FixedLayout(columns, b) == Ok(LayoutOf(columns, h.count))
    ensures b[0] == FIXED_VERSION
  {
  }

  lemma DecodeStoredRow(schema: TableSchema, more: seq<ColumnSchema>, values: seq<ColumnValue>, mvcc: Mvcc)
    requires WellTyped(schema.columns, values) && RowFits(schema.columns, values)
    requires schema.columns <= more
    ensures DecodeRow(more, EncodeRowValues(schema, values, mvcc)) == Ok(RowOf(more, Extended(values, |more|), |more|))
  {
    hide EncodeRowValues, DecodeHeader, DecodeColumn, DecodeRaw;
    var b, l, all := EncodeRowValues(schema, values, mvcc), LayoutOf(more, |values|), Extended(values, |more|);
    EncodedLayout(schema, more, values, mvcc);
    forall i | 0 <= i < |more| ensures DecodeColumn(more, b, l, i) == Ok(all[i]) {
      StoredColumnOfMore(schema, more, values, mvcc, i);
    }
    DecodeColumnsFrom(more, b, l, all);
  }

  lemma RowOfIsMap(columns: seq<ColumnSchema>, values: seq<ColumnValue>)
    requires |values| == |columns| && DistinctNames(columns)
    ensures var row := RowOf(columns, values, |columns|);
      && (forall name :: name in row <==> exists i :: 0 <= i < |columns| && columns[i].name == name)
      && (forall i :: 0 <= i < |columns| ==> columns[i].name in row && row[columns[i].name] == values[i])
  {
    var row := RowOf(columns, values, |columns|);
    forall name ensures name in row <==> exists i :: 0 <= i < |columns| && columns[i].name == name {
      RowOfNames(columns, values, |columns|, name);
    }
    forall i | 0 <= i < |columns| ensures RowValue(row, columns[i].name) == values[i] {
      RowOfValues(columns, values, |columns|, i);
    }
  }

  /**
   * A v4 row written under one schema decodes, under any schema that appends columns to it, to the same
   * row with NULL in the appended columns. With no appended columns this is the plain round trip.
   */
  lemma RowSurvivesSchemaGrowth(schema: TableSchema, more: seq<ColumnSchema>, row: RowMap, mvcc: Mvcc)
    requires schema.columns <= more && DistinctNames(more)
    requires WellTyped(schema.columns, ColumnValues(schema.columns, row))
    requires RowFits(schema.columns, ColumnValues(schema.columns, row))
    ensures DecodeRow(more, EncodeRow(schema, row, mvcc)).Ok?
    ensures var decoded := DecodeRow(more, EncodeRow(schema, row, mvcc)).value;
      && (forall name :: name in decoded <==> exists i :: 0 <= i < |more| && more[i].name == name)
      && (forall i :: 0 <= i < |more| ==>
            (RowValue(decoded, more[i].name) == if i < |schema.columns| then RowValue(row, more[i].name) else Null))
  {
    var values := ColumnValues(schema.columns, row);
    DecodeStoredRow(schema, more, values, mvcc);
    RowOfIsMap(more, Extended(values, |more|));
  }

  /**
   * Migrating a v2 or v3 record to v4 keeps the decoded row and the MVCC header, and a second pass finds
   * nothing to rewrite.
   */
  lemma ReencodePreservesRow(schema: TableSchema, b: bytes)
    requires DistinctNames(schema.columns)
    requires Reencode(schema, b).Ok? && Reencode(schema, b).value.Some?
    requires var values := ValuesById(schema.columns, DecodeRaw(b).value.values);
      WellTyped(schema.columns, values) && RowFits(schema.columns, values)
    ensures var c := Reencode(schema, b).value.value;
      && DecodeRow(schema.columns, c) == DecodeRow(schema.columns, b)
      && DecodeHeader(c).Ok? && DecodeHeader(c).value.mvcc == DecodeRaw(b).value.mvcc
      && Reencode(schema, c) == Ok(None)
  {
    var columns := schema.columns;
    var record := DecodeRaw(b).value;
    var values := ValuesById(columns, record.values);
    var row := RowOf(columns, values, |columns|);
    RowOfIsMap(columns, values);
    assert ColumnValues(columns, row) == values;
    var c := EncodeRow(schema, row, record.mvcc);
    EncodedHeader(schema, values, record.mvcc);
    EncodedLayout(schema, columns, values, record.mvcc);
    DecodeStoredRow(schema, columns, values, record.mvcc);
    assert Extended(values, |columns|) == values;
  }

  /** Only v4 records and tombstones are left alone. */
  lemma ReencodeSkips(schema: TableSchema, b: bytes)
    requires Reencode(schema, b).Ok?
    ensures Reencode(schema, b).value.None? <==>
      (b != [] && b[0] == FIXED_VERSION) || (DecodeRaw(b).Ok? && IsTombstone(DecodeRaw(b).value))
  {
    if b != [] && b[0] == FIXED_VERSION {
      assert DecodeRaw(b).Err?;
    }
  }
}
