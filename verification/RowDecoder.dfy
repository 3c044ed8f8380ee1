/** The row decoders as the source runs them: cursors, loops over entries, tables and reused buffers. */
module RowDecoder {
  import opened Basics
  import opened Bytes
  import opened Values
  import opened Reader
  import opened TupleCodec
  import opened FixedColumns
  import opened RowFormat
  import opened RowProjection
  import opened FastNumericDecode

  /** The five header reads after the version byte, and the version byte itself. */
  method ReadHeader(c: Cursor) returns (r: Result<Header>)
    requires c.pos == 0
    modifies c
    ensures c.Valid() && r == DecodeHeader(c.data) && (r.Ok? ==> c.pos == HEADER_LEN)
  {
    hide FromBe;
    var version := c.Unsigned(1);
    if version.Err? { return Err; }
    var schemaVersion := c.Unsigned(4);
    if schemaVersion.Err? { return Err; }
    var tableEpoch := c.Unsigned(8);
    if tableEpoch.Err? { return Err; }
    var xmin := c.Unsigned(8);
    if xmin.Err? { return Err; }
    var xmax := c.Unsigned(8);
    if xmax.Err? { return Err; }
    var count := c.Unsigned(4);
    if count.Err? { return Err; }
    Pow256Values();
    OneByte(c.data);
    r := Ok(Header(version.value, schemaVersion.value, tableEpoch.value, Mvcc(xmin.value, xmax.value), count.value));
  }

  lemma OneByte(b: bytes)
    requires b != []
    ensures FromBe(b[0..1]) == b[0]
  {
    assert b[0..1] == [b[0]];
    assert FromBe([b[0]]) == FromBe([]) * 256 + b[0];
  }

  /** `decode_row_record_raw` on a version 2 record. */
  method DecodeLegacyRaw(b: bytes) returns (r: Result<RowRecord>)
    requires b == [] || b[0] != FAST_VERSION
    ensures r == DecodeRaw(b)
  {
    hide DecodeTuple, DecodeHeader;
    var c := new Cursor(b);
    var header := ReadHeader(c);
    if header.Err? || header.value.version != LEGACY_VERSION {
      return Err;
    }
    var count := header.value.count;
    var values: map<u32, ColumnValue> := map[];
    var i := 0;
    while i < count
      invariant 0 <= i <= count && c.Valid()
      invariant ReadEntries(b, HEADER_LEN, count, map[]) == ReadEntries(b, c.pos, count - i, values)
    {
      var id := c.Unsigned(4);
      if id.Err? { return Err; }
      var value := DecodeTupleValue(c);
      if value.Err? { return Err; }
      Pow256Values();
      values := values[id.value := value.value];
      i := i + 1;
    }
    if c.pos != |b| {
      return Err;
    }
    r := Ok(RowRecord(header.value.schemaVersion, header.value.tableEpoch, header.value.mvcc, values));
  }

  /** `decode_fast_row_record_raw`. */
  method DecodeFastRaw(b: bytes) returns (r: Result<RowRecord>)
    requires b != [] && b[0] == FAST_VERSION
    ensures r == DecodeRaw(b)
  {
    hide DecodeWhole, DecodeHeader, ReadFastEntry;
    var header := FastHeader(b);
    if header.Err? {
      return Err;
    }
    var h := header.value;
    var values: map<u32, ColumnValue> := map[];
    for k := 0 to h.count
      invariant ReadFastEntries(b, h.count, 0, map[]) == ReadFastEntries(b, h.count, k, values)
    {
      var e := ReadFastEntry(b, h.count, k);
      if e.Err? { return Err; }
      var value := DecodeWhole(b, e.value.start, e.value.end);
      if value.Err? { return Err; }
      values := values[e.value.id := value.value];
    }
    r := Ok(RowRecord(h.schemaVersion, h.tableEpoch, h.mvcc, values));
  }

  lemma {:induction false} DecodeColumnsErr(columns: seq<ColumnSchema>, b: bytes, layout: Layout, i: nat, n: nat)
    requires layout.count <= |columns| && i <= n && DecodeColumns(columns, b, layout, i).Err?
    ensures DecodeColumns(columns, b, layout, n).Err?
    decreases n
  {
    if i < n {
      DecodeColumnsErr(columns, b, layout, i, n - 1);
    }
  }

  lemma {:induction false} RowOfAgrees(columns: seq<ColumnSchema>, v: seq<ColumnValue>, w: seq<ColumnValue>, n: nat)
    requires n <= |columns| == |v| == |w| && v[..n] == w[..n]
    ensures RowOf(columns, v, n) == RowOf(columns, w, n)
    decreases n
  {
    if n > 0 {
      assert v[..n - 1] == v[..n][..n - 1] && w[..n - 1] == w[..n][..n - 1];
      assert v[n - 1] == v[..n][n - 1] && w[n - 1] == w[..n][n - 1];
      RowOfAgrees(columns, v, w, n - 1);
    }
  }

  /** `decode_row_record`: one insertion per column. */
  method DecodeRowRecord(columns: seq<ColumnSchema>, b: bytes) returns (r: Result<RowMap>)
    ensures r == DecodeRow(columns, b)
  {
    hide DecodeColumn, DecodeRaw, FixedLayout;
    var row: RowMap := map[];
    if b != [] && b[0] == FIXED_VERSION {
      var layout := FixedLayout(columns, b);
      if layout.Err? {
        return Err;
      }
      ghost var values: seq<ColumnValue> := NullValues(|columns|);
      var i := 0;
      while i < |columns|
        invariant 0 <= i <= |columns| == |values|
        invariant DecodeColumns(columns, b, layout.value, i) == Ok(values[..i]) && row == RowOf(columns, values, i)
      {
        var value := DecodeColumn(columns, b, layout.value, i);
        if value.Err? {
          DecodeColumnsErr(columns, b, layout.value, i + 1, |columns|);
          return Err;
        }
        RowOfAgrees(columns, values, values[i := value.value], i);
        assert values[i := value.value][..i + 1] == values[..i] + [value.value];
        values := values[i := value.value];
        row := row[columns[i].name := value.value];
        i := i + 1;
      }
      assert values[..|columns|] == values;
      return Ok(row);
    }
    var record: Result<RowRecord>;
    if b != [] && b[0] == FAST_VERSION {
      record := DecodeFastRaw(b);
    } else {
      record := DecodeLegacyRaw(b);
    }
    if record.Err? {
      return Err;
    }
    var m := record.value.values;
    for i := 0 to |columns|
      invariant row == RowOf(columns, ValuesById(columns, m), i)
    {
      row := row[columns[i].name := if columns[i].columnId in m then m[columns[i].columnId] else Null];
    }
    r := Ok(row);
  }

  // ---------------------------------------------------------------------------------------------
  // Projectors.

  /** A table from column id to output position. */
  datatype Projector = Projector(table: seq<Option<nat>>)

  function Lookup(p: Projector, id: u32): Option<nat> {
    if id < |p.table| then p.table[id] else None
  }

  /** `RowValueProjector::new`, and `FastNumericProjector::new` likewise: the last wanted output of an id wins. */
  method NewProjector(columns: seq<ColumnSchema>, indices: seq<nat>) returns (p: Projector)
    ensures forall id: u32 {:trigger Lookup(p, id)} :: Lookup(p, id) == Output(columns, indices, id)
  {
    var maxId: nat := 0;
    for i := 0 to |columns|
      invariant forall j :: 0 <= j < i ==> columns[j].columnId <= maxId
    {
      if columns[i].columnId > maxId {
        maxId := columns[i].columnId;
      }
    }
    var table: seq<Option<nat>> := seq(maxId + 1, _ => None);
    for o := 0 to |indices|
      invariant |table| == maxId + 1
      invariant forall id: nat {:trigger table[id]} :: id <= maxId && id < 0x1_0000_0000 ==> table[id] == OutputIdx(columns, indices, id, o)
    {
      if indices[o] < |columns| {
        table := table[columns[indices[o]].columnId := Some(o)];
      }
    }
    p := Projector(table);
  }

  /** `decode_row_record_projected_values_with`: the values vector is cleared to NULL and then filled. */
  method DecodeProjectedValues(columns: seq<ColumnSchema>, indices: seq<nat>, b: bytes) returns (r: Result<seq<ColumnValue>>)
    ensures r == Project(columns, indices, b)
  {
    hide DecodeTuple, SkipTuple, DecodeHeader, ReadFastEntry, DecodeWhole, DecodeColumn, FixedLayout;
    if b == [] {
      return Err;
    }
    var projector := NewProjector(columns, indices);
    var values := NullValues(|indices|);
    if b[0] == FIXED_VERSION {
      var layout := FixedLayout(columns, b);
      if layout.Err? {
        return Err;
      }
      var o := 0;
      while o < |indices|
        invariant 0 <= o <= |indices| == |values|
        invariant ProjectFixed(columns, indices, b, layout.value, o) == Ok(values[..o])
      {
        var value := DecodeColumn(columns, b, layout.value, indices[o]);
        if value.Err? {
          ProjectFixedErr(columns, indices, b, layout.value, o + 1, |indices|);
          return Err;
        }
        assert values[o := value.value][..o + 1] == values[..o] + [value.value];
        values := values[o := value.value];
        o := o + 1;
      }
      assert values[..|indices|] == values;
      return Ok(values);
    }
    if b[0] == FAST_VERSION {
      var header := FastHeader(b);
      if header.Err? {
        return Err;
      }
      var count := header.value.count;
      for k := 0 to count
        invariant |values| == |indices|
        invariant ProjectFast(columns, indices, b, count, 0, NullValues(|indices|)) == ProjectFast(columns, indices, b, count, k, values)
      {
        var e := ReadFastEntry(b, count, k);
        if e.Err? { return Err; }
        var output := Lookup(projector, e.value.id);
        if output.Some? {
          var value := DecodeWhole(b, e.value.start, e.value.end);
          if value.Err? { return Err; }
          values := values[output.value := value.value];
        }
      }
      return Ok(values);
    }
    r := DecodeProjectedLegacy(columns, indices, projector, b);
  }

  lemma {:induction false} ProjectFixedErr(columns: seq<ColumnSchema>, indices: seq<nat>, b: bytes, layout: Layout, i: nat, n: nat)
    requires layout.count <= |columns| && i <= n <= |indices| && ProjectFixed(columns, indices, b, layout, i).Err?
    ensures ProjectFixed(columns, indices, b, layout, n).Err?
    decreases n
  {
    if i < n {
      ProjectFixedErr(columns, indices, b, layout, i, n - 1);
    }
  }

  method DecodeProjectedLegacy(columns: seq<ColumnSchema>, indices: seq<nat>, projector: Projector, b: bytes) returns (r: Result<seq<ColumnValue>>)
    requires forall id: u32 {:trigger Lookup(projector, id)} :: Lookup(projector, id) == Output(columns, indices, id)
    requires b != [] && b[0] != FIXED_VERSION && b[0] != FAST_VERSION
    ensures r == Project(columns, indices, b)
  {
    hide DecodeTuple, SkipTuple, DecodeHeader, OutputIdx;
    var c := new Cursor(b);
    var header := ReadHeader(c);
    if header.Err? || header.value.version != LEGACY_VERSION {
      return Err;
    }
    var count := header.value.count;
    var values := NullValues(|indices|);
    var i := 0;
    while i < count
      invariant 0 <= i <= count && c.Valid() && |values| == |indices|
      invariant ProjectLegacy(columns, indices, b, HEADER_LEN, count, NullValues(|indices|))
        == ProjectLegacy(columns, indices, b, c.pos, count - i, values)
    {
      var id := c.Unsigned(4);
      if id.Err? { return Err; }
      Pow256Values();
      var output := Lookup(projector, id.value);
      if output.Some? {
        var value := DecodeTupleValue(c);
        if value.Err? { return Err; }
        values := values[output.value := value.value];
      } else {
        var skipped := SkipTupleValue(c);
        if skipped.Err? { return Err; }
      }
      i := i + 1;
    }
    if c.pos != |b| {
      return Err;
    }
    r := Ok(values);
  }

  // ---------------------------------------------------------------------------------------------
  // The fast numeric decoders, into the caller's buffer.

  /** `decode_row_record_fast_numeric_slots_with`. After an error the buffer's contents are unspecified. */
  method DecodeFastNumericSlots(columns: seq<ColumnSchema>, indices: seq<nat>, projector: Projector, b: bytes,
      slots: seq<nat>, values: array<FastNumeric>) returns (ok: bool)
    requires forall id: u32 {:trigger Lookup(projector, id)} :: Lookup(projector, id) == Output(columns, indices, id)
    modifies values
    ensures ok <==> FastDecode(columns, indices, b, slots, old(values[..])).Ok?
    ensures ok ==> values[..] == FastDecode(columns, indices, b, slots, old(values[..])).value
  {
    hide FixedSlot, DecodeHeader, FastHeader, NumericLegacy, NumericFast;
    if values.Length != |indices| || b == [] {
      return false;
    }
    if b[0] == FIXED_VERSION {
      ghost var before := values[..];
      var s := 0;
      while s < |slots|
        invariant 0 <= s <= |slots|
        invariant FixedSlots(columns, indices, b, slots, s, before) == Ok(values[..])
      {
        var o := slots[s];
        if o < |indices| && indices[o] < |columns| {
          var slot := FixedSlot(columns, b, indices[o]);
          if slot.Err? {
            FixedSlotsErr(columns, indices, b, slots, s + 1, |slots|, before);
            return false;
          }
          values[o] := slot.value;
        }
        s := s + 1;
      }
      return true;
    }
    for i := 0 to values.Length
      invariant forall j :: 0 <= j < i ==> values[j] == NullSlot
    {
      values[i] := NullSlot;
    }
    assert values[..] == NullSlots(|indices|);
    if b[0] == LEGACY_VERSION {
      ok := DecodeNumericLegacy(columns, indices, projector, b, values);
    } else if b[0] == FAST_VERSION {
      ok := DecodeNumericFast(columns, indices, projector, b, values);
    } else {
      ok := false;
    }
  }

  lemma {:induction false} FixedSlotsErr(columns: seq<ColumnSchema>, indices: seq<nat>, b: bytes, slots: seq<nat>, i: nat, n: nat,
      buffer: seq<FastNumeric>)
    requires i <= n <= |slots| && |buffer| == |indices| && FixedSlots(columns, indices, b, slots, i, buffer).Err?
    ensures FixedSlots(columns, indices, b, slots, n, buffer).Err?
    decreases n
  {
    if i < n {
      FixedSlotsErr(columns, indices, b, slots, i, n - 1, buffer);
    }
  }

  method DecodeNumericLegacy(columns: seq<ColumnSchema>, indices: seq<nat>, projector: Projector, b: bytes,
      values: array<FastNumeric>) returns (ok: bool)
    requires forall id: u32 {:trigger Lookup(projector, id)} :: Lookup(projector, id) == Output(columns, indices, id)
    requires b != [] && b[0] == LEGACY_VERSION && values.Length == |indices| && values[..] == NullSlots(|indices|)
    modifies values
    ensures ok <==> FastDecode(columns, indices, b, [], NullSlots(|indices|)).Ok?
    ensures ok ==> values[..] == FastDecode(columns, indices, b, [], NullSlots(|indices|)).value
  {
    hide SkipTuple, DecodeNumeric, DecodeHeader, OutputIdx;
    var c := new Cursor(b);
    var header := ReadHeader(c);
    if header.Err? {
      return false;
    }
    var count := header.value.count;
    var i := 0;
    while i < count
      invariant 0 <= i <= count && c.Valid()
      invariant NumericLegacy(columns, indices, b, HEADER_LEN, count, NullSlots(|indices|))
        == NumericLegacy(columns, indices, b, c.pos, count - i, values[..])
    {
      var id := c.Unsigned(4);
      if id.Err? { return false; }
      Pow256Values();
      var output := Lookup(projector, id.value);
      if output.Some? {
        var x := DecodeNumeric(b, c.pos);
        if x.Fail? { return false; }
        values[output.value] := x.value;
        c.pos := x.next;
      } else {
        var skipped := SkipTupleValue(c);
        if skipped.Err? { return false; }
      }
      i := i + 1;
    }
    ok := c.pos == |b|;
  }

  /** The direct path first; a mismatching id sends the whole record to the search. */
  method DecodeNumericFast(columns: seq<ColumnSchema>, indices: seq<nat>, projector: Projector, b: bytes,
      values: array<FastNumeric>) returns (ok: bool)
    requires forall id: u32 {:trigger Lookup(projector, id)} :: Lookup(projector, id) == Output(columns, indices, id)
    requires b != [] && b[0] == FAST_VERSION && values.Length == |indices| && values[..] == NullSlots(|indices|)
    modifies values
    ensures ok <==> FastDecode(columns, indices, b, [], NullSlots(|indices|)).Ok?
    ensures ok ==> values[..] == FastDecode(columns, indices, b, [], NullSlots(|indices|)).value
  {
    hide DecodeHeader, ReadFastEntry, NumericWhole, OutputIdx;
    var header := FastHeader(b);
    if header.Err? {
      return false;
    }
    var count := header.value.count;
    if DirectPossible(columns, indices, count) {
      var direct, o := true, 0;
      while o < |indices| && direct
        invariant 0 <= o <= |indices|
        invariant DirectSlots(columns, indices, b, count, 0, NullSlots(|indices|))
          == if direct then DirectSlots(columns, indices, b, count, o, values[..]) else Mismatch
      {
        if indices[o] < |columns| {
          var e := ReadFastEntry(b, count, indices[o]);
          if e.Err? { return false; }
          if e.value.id != columns[indices[o]].columnId {
            direct := false;
          } else {
            var x := NumericWhole(b, e.value.start, e.value.end);
            if x.Err? { return false; }
            values[o] := x.value;
          }
        }
        o := o + 1;
      }
      if direct {
        return true;
      }
      for i := 0 to values.Length
        invariant forall j :: 0 <= j < i ==> values[j] == NullSlot
      {
        values[i] := NullSlot;
      }
      assert values[..] == NullSlots(|indices|);
    }
    for k := 0 to count
      invariant SearchSlots(columns, indices, b, count, 0, NullSlots(|indices|)) == SearchSlots(columns, indices, b, count, k, values[..])
    {
      var e := ReadFastEntry(b, count, k);
      if e.Err? { return false; }
      var output := Lookup(projector, e.value.id);
      if output.Some? {
        var x := NumericWhole(b, e.value.start, e.value.end);
        if x.Err? { return false; }
        values[output.value] := x.value;
      }
    }
    ok := true;
  }
}
