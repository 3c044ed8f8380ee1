/** Records of the older formats, from the writing side: tagged lists (v2), directories (v3), and tombstones. */
module OldRows {
  import opened Basics
  import opened Bytes
  import opened Values
  import opened Reader
  import opened TupleCodec
  import opened RowFormat
  import opened RowRoundTrip

  /** One stored column: its id and its value. */
  datatype Entry = Entry(id: u32, value: ColumnValue)

  predicate Writable(entries: seq<Entry>) {
    |entries| < U32 && forall k :: 0 <= k < |entries| ==> WellSized(entries[k].value)
  }

  function RecordHeader(version: byte, schema: TableSchema, mvcc: Mvcc, count: nat): bytes {
    EncodeHeader(Header(version, schema.schemaVersion, schema.tableEpoch, mvcc, count % U32))
  }

  function TaggedList(entries: seq<Entry>): bytes {
    if entries == [] then [] else Be(entries[0].id, 4) + EncodeTuple(entries[0].value) + TaggedList(entries[1..])
  }

  /** A v2 record: the entries one after the other, each value behind its id. */
  function TaggedRecord(schema: TableSchema, mvcc: Mvcc, entries: seq<Entry>): bytes {
    RecordHeader(LEGACY_VERSION, schema, mvcc, |entries|) + TaggedList(entries)
  }

  function ValueBytes(entries: seq<Entry>): (r: seq<bytes>)
    ensures |r| == |entries|
  {
    seq(|entries|, k requires 0 <= k < |entries| => EncodeTuple(entries[k].value))
  }

  /** The first `n` directory entries: id, offset in the payload, and length. */
  function EntryList(entries: seq<Entry>, n: nat): (r: bytes)
    requires n <= |entries|
    ensures |r| == 12 * n
  {
    if n == 0 then []
    else
      EntryList(entries, n - 1)
      + (Be(entries[n - 1].id, 4) + (Be(|Concat(ValueBytes(entries), n - 1)|, 4) + Be(|EncodeTuple(entries[n - 1].value)|, 4)))
  }

  /** A v3 record: the directory of all entries, then the payload of all values. */
  function DirectoryRecord(schema: TableSchema, mvcc: Mvcc, entries: seq<Entry>): bytes {
    RecordHeader(FAST_VERSION, schema, mvcc, |entries|) + (EntryList(entries, |entries|) + Concat(ValueBytes(entries), |entries|))
  }

  /** `encode_row_tombstone`. */
  function Tombstone(schema: TableSchema, version: u64): bytes {
    RecordHeader(LEGACY_VERSION, schema, Mvcc(version, version), 0)
  }

  predicate HasEntry(entries: seq<Entry>, id: u32) {
    exists k :: 0 <= k < |entries| && entries[k].id == id
  }

  /** No later entry has the id of entry `k`. */
  predicate IsLast(entries: seq<Entry>, k: nat)
    requires k < |entries|
  {
    forall j :: k < j < |entries| ==> entries[j].id != entries[k].id
  }

  /** Every id that has an entry, and no other, has the value of its last one. */
  ghost predicate Binds(entries: seq<Entry>, m: map<u32, ColumnValue>) {
    && (forall id :: id in m <==> HasEntry(entries, id))
    && forall k :: 0 <= k < |entries| && entries[k].id in m && IsLast(entries, k) ==> m[entries[k].id] == entries[k].value
  }

  lemma BindsNext(entries: seq<Entry>, m: map<u32, ColumnValue>, n: nat)
    requires n < |entries| && Binds(entries[..n], m)
    ensures Binds(entries[..n + 1], m[entries[n].id := entries[n].value])
  {
    var front, more, last := entries[..n], entries[..n + 1], entries[n];
    var m' := m[last.id := last.value];
    assert more == front + [last];
    forall id ensures HasEntry(more, id) <==> HasEntry(front, id) || id == last.id {
      EntryAppended(front, last, id);
    }
    forall k | 0 <= k < |more| && more[k].id in m' && IsLast(more, k) ensures m'[more[k].id] == more[k].value {
      if k < n {
        LastOfFront(front, last, k);
        assert front[k].id in m;
      }
    }
  }

  lemma EntryAppended(front: seq<Entry>, last: Entry, id: u32)
    ensures HasEntry(front + [last], id) <==> HasEntry(front, id) || id == last.id
  {
    var more := front + [last];
    assert more[|front|] == last && forall k :: 0 <= k < |front| ==> more[k] == front[k];
    if HasEntry(front, id) {
      var k :| 0 <= k < |front| && front[k].id == id;
      assert more[k].id == id;
    }
  }

  lemma LastOfFront(front: seq<Entry>, last: Entry, k: nat)
    requires k < |front| && IsLast(front + [last], k)
    ensures IsLast(front, k) && front[k].id != last.id
  {
    var more := front + [last];
    assert more[|front|] == last && forall j :: 0 <= j < |front| ==> more[j] == front[j];
  }

  // ---------------------------------------------------------------------------------------------
  // Version 2.

  lemma ListSplit(entries: seq<Entry>, n: nat)
    requires n < |entries|
    ensures TaggedList(entries[n..]) == Be(entries[n].id, 4) + (EncodeTuple(entries[n].value) + TaggedList(entries[n + 1..]))
  {
    assert entries[n..][1..] == entries[n + 1..];
    var a, b, c := Be(entries[n].id, 4), EncodeTuple(entries[n].value), TaggedList(entries[n + 1..]);
    assert a + b + c == a + (b + c);
  }

  lemma {:induction false} ListRead(b: bytes, pos: nat, entries: seq<Entry>, n: nat, acc: map<u32, ColumnValue>)
    requires Writable(entries) && n <= |entries| && Binds(entries[..n], acc)
    requires pos <= |b| && At(b, pos, TaggedList(entries[n..]))
    ensures var r := ReadEntries(b, pos, |entries| - n, acc);
      r.Read? && r.next == pos + |TaggedList(entries[n..])| && Binds(entries, r.value)
    decreases |entries| - n
  {
    hide Be, FromBe, EncodeTuple, DecodeTuple, WellSized, Binds, TaggedList;
    if n == |entries| {
      NoList(entries);
    } else {
      var e := entries[n];
      ListSplit(entries, n);
      AtConcat(b, pos, Be(e.id, 4), EncodeTuple(e.value) + TaggedList(entries[n + 1..]));
      AtConcat(b, pos + 4, EncodeTuple(e.value), TaggedList(entries[n + 1..]));
      Pow256Values();
      FromBeOfBe(e.id, 4);
      TupleRoundTrip(e.value, b, pos + 4);
      BindsNext(entries, acc, n);
      ListRead(b, pos + 4 + |EncodeTuple(e.value)|, entries, n + 1, acc[e.id := e.value]);
    }
  }

  lemma NoList(entries: seq<Entry>)
    ensures entries[|entries|..] == [] && TaggedList([]) == [] && entries[..|entries|] == entries
  {
  }

  lemma NothingBound(entries: seq<Entry>)
    ensures Binds(entries[..0], map[]) && entries[0..] == entries
  {
  }

  /** A written v2 record reads as its header and its entries, the last one of each id. */
  lemma TaggedRecordRead(schema: TableSchema, mvcc: Mvcc, entries: seq<Entry>)
    requires Writable(entries)
    ensures var r := DecodeRaw(TaggedRecord(schema, mvcc, entries));
      r.Ok? && r.value == RowRecord(schema.schemaVersion, schema.tableEpoch, mvcc, r.value.values) && Binds(entries, r.value.values)
  {
    hide EncodeHeader, DecodeHeader, ReadEntries, Binds, TaggedList, WellSized;
    var b, list := TaggedRecord(schema, mvcc, entries), TaggedList(entries);
    var h := Header(LEGACY_VERSION, schema.schemaVersion, schema.tableEpoch, mvcc, |entries| % U32);
    HeaderRoundTrip(h, list);
    FirstByte(h, list);
    AtWhole(EncodeHeader(h), list);
    NothingBound(entries);
    ListRead(b, HEADER_LEN, entries, 0, map[]);
  }

  lemma FirstByte(h: Header, rest: bytes)
    ensures var b := EncodeHeader(h) + rest;
      b != [] && b[0] == h.version
  {
  }

  // ---------------------------------------------------------------------------------------------
  // Version 3.

  lemma {:induction false} EntryListAt(entries: seq<Entry>, n: nat, k: nat)
    requires k < n <= |entries|
    ensures At(EntryList(entries, n), 12 * k,
      Be(entries[k].id, 4) + (Be(|Concat(ValueBytes(entries), k)|, 4) + Be(|EncodeTuple(entries[k].value)|, 4)))
    decreases n
  {
    hide Be, EncodeTuple, Concat;
    var front := EntryList(entries, n - 1);
    var last := Be(entries[n - 1].id, 4) + (Be(|Concat(ValueBytes(entries), n - 1)|, 4) + Be(|EncodeTuple(entries[n - 1].value)|, 4));
    AtWhole(front, last);
    if k < n - 1 {
      EntryListAt(entries, n - 1, k);
      AtNested(front + last, 0, front, 12 * k,
        Be(entries[k].id, 4) + (Be(|Concat(ValueBytes(entries), k)|, 4) + Be(|EncodeTuple(entries[k].value)|, 4)));
    }
  }

  /** What the directory says of entry `k`, and what stands where it points. */
  predicate Points(b: bytes, entries: seq<Entry>, k: nat)
    requires k < |entries|
  {
    var at, from := HEADER_LEN + 12 * k, |Concat(ValueBytes(entries), k)|;
    && At(b, at, Be(entries[k].id, 4)) && At(b, at + 4, Be(from, 4)) && At(b, at + 8, Be(|EncodeTuple(entries[k].value)|, 4))
    && from + |EncodeTuple(entries[k].value)| < U32
    && At(b, FastPayloadStart(|entries|) + from, EncodeTuple(entries[k].value))
  }

  lemma WrittenPoints(schema: TableSchema, mvcc: Mvcc, entries: seq<Entry>, k: nat)
    requires k < |entries| && |Concat(ValueBytes(entries), |entries|)| < U32
    ensures Points(DirectoryRecord(schema, mvcc, entries), entries, k)
  {
    hide Be, EncodeTuple, Concat, EncodeHeader, EntryList;
    var b, h := DirectoryRecord(schema, mvcc, entries), RecordHeader(FAST_VERSION, schema, mvcc, |entries|);
    var list, parts := EntryList(entries, |entries|), ValueBytes(entries);
    var payload, value := Concat(parts, |entries|), EncodeTuple(entries[k].value);
    var from := |Concat(parts, k)|;
    AtWhole(h, list + payload);
    AtWhole(list, payload);
    EntryListAt(entries, |entries|, k);
    AtConcat(list, 12 * k, Be(entries[k].id, 4), Be(from, 4) + Be(|value|, 4));
    AtConcat(list, 12 * k + 4, Be(from, 4), Be(|value|, 4));
    ConcatAt(parts, |entries|, k);
    InDirectory(b, h, list, payload, 12 * k, Be(entries[k].id, 4));
    InDirectory(b, h, list, payload, 12 * k + 4, Be(from, 4));
    InDirectory(b, h, list, payload, 12 * k + 8, Be(|value|, 4));
    AtNested(list + payload, |list|, payload, from, value);
    AtNested(b, |h|, list + payload, |list| + from, value);
  }

  lemma InDirectory(b: bytes, h: bytes, list: bytes, payload: bytes, off: nat, s: bytes)
    requires b == h + (list + payload) && At(list, off, s)
    ensures At(b, |h| + off, s)
  {
    AtWhole(h, list + payload);
    AtWhole(list, payload);
    AtNested(list + payload, 0, list, off, s);
    AtNested(b, |h|, list + payload, off, s);
  }

  lemma EntryIsRead(b: bytes, entries: seq<Entry>, k: nat)
    requires Writable(entries) && k < |entries| && Points(b, entries, k)
    ensures var e := ReadFastEntry(b, |entries|, k);
      e.Ok? && e.value.id == entries[k].id && DecodeWhole(b, e.value.start, e.value.end) == Ok(entries[k].value)
  {
    hide Be, FromBe, EncodeTuple, Concat, DecodeWhole, WellSized;
    Pow256Values();
    var from, size := |Concat(ValueBytes(entries), k)|, |EncodeTuple(entries[k].value)|;
    FromBeOfBe(entries[k].id, 4);
    FromBeOfBe(from, 4);
    FromBeOfBe(size, 4);
    BeLength(entries[k].id, from, size);
    WholeAt(b, FastPayloadStart(|entries|) + from, entries[k].value);
  }

  lemma BeLength(a: nat, b: nat, c: nat)
    ensures |Be(a, 4)| == |Be(b, 4)| == |Be(c, 4)| == 4
  {
  }

  lemma {:induction false} DirectoryRead(b: bytes, entries: seq<Entry>, k: nat, acc: map<u32, ColumnValue>)
    requires Writable(entries) && k <= |entries| && Binds(entries[..k], acc)
    requires forall i :: 0 <= i < |entries| ==> Points(b, entries, i)
    ensures var r := ReadFastEntries(b, |entries|, k, acc);
      r.Ok? && Binds(entries, r.value)
    decreases |entries| - k
  {
    hide ReadFastEntry, DecodeWhole, Points, Binds, WellSized, TaggedList;
    if k == |entries| {
      NoList(entries);
    } else {
      EntryIsRead(b, entries, k);
      BindsNext(entries, acc, k);
      DirectoryRead(b, entries, k + 1, acc[entries[k].id := entries[k].value]);
    }
  }

  /** A written v3 record, whose payload is below 4 GiB, reads as its header and its entries, the last one of each id. */
  lemma DirectoryRecordRead(schema: TableSchema, mvcc: Mvcc, entries: seq<Entry>)
    requires Writable(entries) && |Concat(ValueBytes(entries), |entries|)| < U32
    ensures var r := DecodeRaw(DirectoryRecord(schema, mvcc, entries));
      r.Ok? && r.value == RowRecord(schema.schemaVersion, schema.tableEpoch, mvcc, r.value.values) && Binds(entries, r.value.values)
  {
    hide EncodeHeader, DecodeHeader, ReadFastEntries, Binds, Points, EntryList, Concat, WellSized;
    var b := DirectoryRecord(schema, mvcc, entries);
    var h := Header(FAST_VERSION, schema.schemaVersion, schema.tableEpoch, mvcc, |entries| % U32);
    var rest := EntryList(entries, |entries|) + Concat(ValueBytes(entries), |entries|);
    HeaderRoundTrip(h, rest);
    FirstByte(h, rest);
    NothingBound(entries);
    forall k | 0 <= k < |entries| ensures Points(b, entries, k) {
      WrittenPoints(schema, mvcc, entries, k);
    }
    DirectoryRead(b, entries, 0, map[]);
  }

  // ---------------------------------------------------------------------------------------------
  // Rows and tombstones.

  /** Under a schema, a column's value is that of the last entry with its id; NULL without one. */
  ghost predicate Shows(columns: seq<ColumnSchema>, entries: seq<Entry>, row: RowMap) {
    forall i :: 0 <= i < |columns| ==>
      var v := RowValue(row, columns[i].name);
      && (!HasEntry(entries, columns[i].columnId) ==> v == Null)
      && forall k :: 0 <= k < |entries| && entries[k].id == columns[i].columnId && IsLast(entries, k) ==> v == entries[k].value
  }

  lemma BoundShows(columns: seq<ColumnSchema>, entries: seq<Entry>, m: map<u32, ColumnValue>)
    requires DistinctNames(columns) && Binds(entries, m)
    ensures Shows(columns, entries, RowOf(columns, ValuesById(columns, m), |columns|))
  {
    hide RowOf, DistinctNames, RowValue;
    var row := RowOf(columns, ValuesById(columns, m), |columns|);
    forall i | 0 <= i < |columns| ensures RowValue(row, columns[i].name) == ValuesById(columns, m)[i] {
      RowOfValues(columns, ValuesById(columns, m), |columns|, i);
    }
  }

  /** Records of both formats decode, under any schema with distinct column names, to the values of their entries. */
  lemma OldRowsRead(schema: TableSchema, mvcc: Mvcc, entries: seq<Entry>)
    requires Writable(entries) && DistinctNames(schema.columns) && |Concat(ValueBytes(entries), |entries|)| < U32
    ensures var r := DecodeRow(schema.columns, TaggedRecord(schema, mvcc, entries));
      r.Ok? && Shows(schema.columns, entries, r.value)
    ensures var r := DecodeRow(schema.columns, DirectoryRecord(schema, mvcc, entries));
      r.Ok? && Shows(schema.columns, entries, r.value)
  {
    hide EncodeHeader, DecodeRaw, Binds, EntryList, TaggedList, Concat, WellSized, Shows, RowOf;
    var h := Header(LEGACY_VERSION, schema.schemaVersion, schema.tableEpoch, mvcc, |entries| % U32);
    FirstByte(h, TaggedList(entries));
    FirstByte(h.(version := FAST_VERSION), EntryList(entries, |entries|) + Concat(ValueBytes(entries), |entries|));
    TaggedRecordRead(schema, mvcc, entries);
    DirectoryRecordRead(schema, mvcc, entries);
    BoundShows(schema.columns, entries, DecodeRaw(TaggedRecord(schema, mvcc, entries)).value.values);
    BoundShows(schema.columns, entries, DecodeRaw(DirectoryRecord(schema, mvcc, entries)).value.values);
  }

  lemma NothingWritten(entries: seq<Entry>, m: map<u32, ColumnValue>)
    requires Binds(entries, m)
    ensures m == map[] <==> entries == []
  {
    if entries != [] {
      assert HasEntry(entries, entries[0].id);
    }
  }

  /** Rewriting leaves alone exactly the records that have no entry and that a transaction has deleted. */
  lemma LeftAloneExactly(schema: TableSchema, mvcc: Mvcc, entries: seq<Entry>)
    requires Writable(entries) && |Concat(ValueBytes(entries), |entries|)| < U32
    ensures var r := Reencode(schema, TaggedRecord(schema, mvcc, entries));
      r.Ok? && (r.value.None? <==> entries == [] && mvcc.xmax != 0)
    ensures var r := Reencode(schema, DirectoryRecord(schema, mvcc, entries));
      r.Ok? && (r.value.None? <==> entries == [] && mvcc.xmax != 0)
  {
    hide EncodeHeader, DecodeRaw, Binds, EntryList, TaggedList, Concat, WellSized, RowOf, EncodeRow;
    var h := Header(LEGACY_VERSION, schema.schemaVersion, schema.tableEpoch, mvcc, |entries| % U32);
    FirstByte(h, TaggedList(entries));
    FirstByte(h.(version := FAST_VERSION), EntryList(entries, |entries|) + Concat(ValueBytes(entries), |entries|));
    TaggedRecordRead(schema, mvcc, entries);
    DirectoryRecordRead(schema, mvcc, entries);
    NothingWritten(entries, DecodeRaw(TaggedRecord(schema, mvcc, entries)).value.values);
    NothingWritten(entries, DecodeRaw(DirectoryRecord(schema, mvcc, entries)).value.values);
  }

  /** Written tombstones are among them, but for version 0. */
  lemma TombstoneLeftAlone(schema: TableSchema, version: u64)
    ensures var r := DecodeRaw(Tombstone(schema, version));
      r.Ok? && r.value == RowRecord(schema.schemaVersion, schema.tableEpoch, Mvcc(version, version), map[])
    ensures var r := Reencode(schema, Tombstone(schema, version));
      r.Ok? && (r.value.None? <==> version != 0)
  {
    hide EncodeHeader, DecodeRaw, Reencode, Binds;
    assert Tombstone(schema, version) == TaggedRecord(schema, Mvcc(version, version), []) by {
      assert Tombstone(schema, version) + [] == Tombstone(schema, version);
    }
    TaggedRecordRead(schema, Mvcc(version, version), []);
    NothingWritten([], DecodeRaw(Tombstone(schema, version)).value.values);
    LeftAloneExactly(schema, Mvcc(version, version), []);
  }
}
