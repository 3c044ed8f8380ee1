/** The fast numeric decoders: slots read at offsets computed once per query from the current schema. */
module FastNumericDecode {
  import opened Basics
  import opened Bytes
  import opened Values
  import opened Reader
  import opened TupleCodec
  import opened FixedColumns
  import opened RowFormat
  import opened RowRoundTrip
  import opened RowProjection

  /** `fast_numeric_data_type`. */
  predicate FastNumericType(t: DataType) {
    t == Int16Type || t == Int32Type || t == Int64Type || t == Float32Type || t == Float64Type
  }

  function NullSlots(n: nat): (r: seq<FastNumeric>)
    ensures |r| == n && forall i :: 0 <= i < n ==> r[i] == NullSlot
  {
    seq(n, _ => NullSlot)
  }

  // ---------------------------------------------------------------------------------------------
  // Version 4: every offset comes from the current column count, not from the stored one.

  /** `decode_fixed_row_numeric_slot`, for the column at index `i`. */
  function FixedSlot(columns: seq<ColumnSchema>, b: bytes, i: nat): Result<FastNumeric>
    requires i < |columns|
  {
    if HEADER_LEN + i / 8 >= |b| then Err
    else if TestBit(b[HEADER_LEN + i / 8], i % 8) then Ok(NullSlot)
    else if FixedWidth(columns[i].dataType).None? then Err
    else
      var start := HEADER_LEN + DivCeil8(|columns|) + FixedSum(columns, i);
      var end := start + FixedWidth(columns[i].dataType).value;
      if |b| < end then Err else DecodeFixedNumeric(columns[i].dataType, b[start..end])
  }

  /** Decodes the requested output slots into the buffer, in order, and leaves the other slots alone. */
  function FixedSlots(columns: seq<ColumnSchema>, indices: seq<nat>, b: bytes, slots: seq<nat>, n: nat, buffer: seq<FastNumeric>)
    : (r: Result<seq<FastNumeric>>)
    requires n <= |slots| && |buffer| == |indices|
    ensures r.Ok? ==> |r.value| == |indices|
  {
    if n == 0 then Ok(buffer)
    else
      match FixedSlots(columns, indices, b, slots, n - 1, buffer)
      case Err => Err
      case Ok(before) =>
        var o := slots[n - 1];
        if o >= |indices| || indices[o] >= |columns| then Ok(before)
        else
          match FixedSlot(columns, b, indices[o])
          case Err => Err
          case Ok(x) => Ok(before[o := x])
  }

  // ---------------------------------------------------------------------------------------------
  // Version 2.

  function NumericLegacy(columns: seq<ColumnSchema>, indices: seq<nat>, b: bytes, pos: nat, count: nat, slots: seq<FastNumeric>)
    : (r: Read<seq<FastNumeric>>)
    requires pos <= |b| && |slots| == |indices|
    ensures r.Read? ==> |r.value| == |indices|
    decreases count
  {
    if count == 0 then Read(slots, pos)
    else
      match ReadUnsigned(b, pos, 4)
      case Fail => Fail
      case Read(id, at) =>
        Pow256Values();
        match Output(columns, indices, id)
        case Some(o) =>
          (match DecodeNumeric(b, at)
           case Fail => Fail
           case Read(x, next) => NumericLegacy(columns, indices, b, next, count - 1, slots[o := x]))
        case None =>
          (match SkipTuple(b, at)
           case Fail => Fail
           case Read(_, next) => NumericLegacy(columns, indices, b, next, count - 1, slots))
  }

  // ---------------------------------------------------------------------------------------------
  // Version 3: first each slot straight at its column's directory position, else a search.

  function NumericWhole(b: bytes, start: nat, end: nat): Result<FastNumeric>
    requires start <= end <= |b|
  {
    match DecodeNumeric(b[start..end], 0)
    case Fail => Err
    case Read(x, next) => if next == end - start then Ok(x) else Err
  }

  datatype Direct = DirectError | Mismatch | Filled(slots: seq<FastNumeric>)

  /** Outputs o, o + 1, ... read at the directory entry with their column's index. */
  function DirectSlots(columns: seq<ColumnSchema>, indices: seq<nat>, b: bytes, count: nat, o: nat, slots: seq<FastNumeric>): (r: Direct)
    requires o <= |indices| == |slots|
    ensures r.Filled? ==> |r.slots| == |indices|
    decreases |indices| - o
  {
    if o == |indices| then Filled(slots)
    else if indices[o] >= |columns| then DirectSlots(columns, indices, b, count, o + 1, slots)
    else
      match ReadFastEntry(b, count, indices[o])
      case Err => DirectError
      case Ok(e) =>
        if e.id != columns[indices[o]].columnId then Mismatch
        else
          match NumericWhole(b, e.start, e.end)
          case Err => DirectError
          case Ok(x) => DirectSlots(columns, indices, b, count, o + 1, slots[o := x])
  }

  function SearchSlots(columns: seq<ColumnSchema>, indices: seq<nat>, b: bytes, count: nat, k: nat, slots: seq<FastNumeric>)
    : (r: Result<seq<FastNumeric>>)
    requires k <= count && |slots| == |indices|
    ensures r.Ok? ==> |r.value| == |indices|
    decreases count - k
  {
    if k == count then Ok(slots)
    else
      match ReadFastEntry(b, count, k)
      case Err => Err
      case Ok(e) =>
        match Output(columns, indices, e.id)
        case None => SearchSlots(columns, indices, b, count, k + 1, slots)
        case Some(o) =>
          match NumericWhole(b, e.start, e.end)
          case Err => Err
          case Ok(x) => SearchSlots(columns, indices, b, count, k + 1, slots[o := x])
  }

  predicate DirectPossible(columns: seq<ColumnSchema>, indices: seq<nat>, count: nat) {
    forall o :: 0 <= o < |indices| && indices[o] < |columns| ==> indices[o] < count
  }

  function NumericFast(columns: seq<ColumnSchema>, indices: seq<nat>, b: bytes, count: nat, slots: seq<FastNumeric>)
    : (r: Result<seq<FastNumeric>>)
    requires |slots| == |indices|
    ensures r.Ok? ==> |r.value| == |indices|
  {
    if DirectPossible(columns, indices, count) then
      match DirectSlots(columns, indices, b, count, 0, slots)
      case DirectError => Err
      case Filled(filled) => Ok(filled)
      case Mismatch => SearchSlots(columns, indices, b, count, 0, NullSlots(|indices|))
    else SearchSlots(columns, indices, b, count, 0, slots)
  }

  /**
   * `decode_row_record_fast_numeric_slots_with`: into the buffer left by the previous record. A v4 record
   * touches only the requested slots; the other formats clear the buffer and fill it.
   */
  function FastDecode(columns: seq<ColumnSchema>, indices: seq<nat>, b: bytes, slots: seq<nat>, buffer: seq<FastNumeric>)
    : (r: Result<seq<FastNumeric>>)
    ensures r.Ok? ==> |r.value| == |indices|
  {
    if |buffer| != |indices| || b == [] then Err
    else if b[0] == FIXED_VERSION then FixedSlots(columns, indices, b, slots, |slots|, buffer)
    else if b[0] == LEGACY_VERSION then
      match DecodeHeader(b)
      case Err => Err
      case Ok(h) =>
        match NumericLegacy(columns, indices, b, HEADER_LEN, h.count, NullSlots(|indices|))
        case Fail => Err
        case Read(r, next) => if next == |b| then Ok(r) else Err
    else if b[0] == FAST_VERSION then
      match FastHeader(b)
      case Err => Err
      case Ok(h) => NumericFast(columns, indices, b, h.count, NullSlots(|indices|))
    else Err
  }

  // ---------------------------------------------------------------------------------------------
  // Agreement with the general projection.

  /** A stored row that the precomputed offsets fit: same bitmap length, and the column was stored. */
  predicate OffsetsFit(columns: seq<ColumnSchema>, b: bytes, i: nat) {
    match FixedLayout(columns, b)
    case Err => false
    case Ok(l) => i < l.count && DivCeil8(l.count) == DivCeil8(|columns|)
  }

  /** On arbitrary v4 bytes, a slot is the numeric view of the generally decoded column. */
  lemma FixedSlotAgrees(columns: seq<ColumnSchema>, b: bytes, i: nat)
    requires i < |columns| && FastNumericType(columns[i].dataType) && OffsetsFit(columns, b, i)
    requires DecodeColumn(columns, b, FixedLayout(columns, b).value, i).Ok?
    ensures var v := DecodeColumn(columns, b, FixedLayout(columns, b).value, i).value;
      NumericView(v).Some? && FixedSlot(columns, b, i) == Ok(NumericView(v).value)
  {
    hide TestBit, FixedLayout, DecodeFixed, DecodeFixedNumeric, DecodeWhole, FixedSum, VariableCount, FromBe;
    var l := FixedLayout(columns, b).value;
    var t := columns[i].dataType;
    if HEADER_LEN + i / 8 < |b| && !TestBit(b[HEADER_LEN + i / 8], i % 8) {
      var start := l.fixedStart + FixedSum(columns, i);
      var bits := b[start..start + FixedWidth(t).value];
      FixedNumericAgrees(t, bits);
      DecodeFixedVariant(t, bits);
    }
  }

  /**
   * The other half: a column appended after the row was written is never read as NULL by its slot when its
   * null bit falls into the stored bitmap, although the general decoder says NULL.
   */
  lemma AppendedColumnMisread(schema: TableSchema, more: seq<ColumnSchema>, values: seq<ColumnValue>, mvcc: Mvcc, i: nat)
    requires |values| == |schema.columns| < U32 && schema.columns <= more
    requires |values| <= i < |more| && i < 8 * DivCeil8(|values|)
    ensures var b := EncodeRowValues(schema, values, mvcc);
      && FixedLayout(more, b).Ok? && DecodeColumn(more, b, FixedLayout(more, b).value, i) == Ok(Null)
      && FixedSlot(more, b, i) != Ok(NullSlot)
  {
    hide EncodeRowValues, NullBitmap, TestBit, FixedLayout, Concat, Directory, FixedSum;
    EncodedLayout(schema, more, values, mvcc);
    EncodedRegions(schema, values, mvcc);
    NullBitAt(Nulls(values), EncodeRowValues(schema, values, mvcc), i);
    var t := more[i].dataType;
    DecodedSlotIsNumber(more, EncodeRowValues(schema, values, mvcc), i);
  }

  lemma DecodedSlotIsNumber(columns: seq<ColumnSchema>, b: bytes, i: nat)
    requires i < |columns| && HEADER_LEN + i / 8 < |b| && !TestBit(b[HEADER_LEN + i / 8], i % 8)
    ensures FixedSlot(columns, b, i) != Ok(NullSlot)
  {
    hide TestBit, FixedSum, FromBe;
  }

  predicate AllNumeric(values: seq<ColumnValue>) {
    forall o {:trigger values[o]} :: 0 <= o < |values| ==> NumericView(values[o]).Some?
  }

  function Views(values: seq<ColumnValue>): (r: seq<FastNumeric>)
    requires AllNumeric(values)
    ensures |r| == |values| && forall o {:trigger r[o]} :: 0 <= o < |values| ==> r[o] == NumericView(values[o]).value
  {
    seq(|values|, o requires 0 <= o < |values| => NumericView(values[o]).value)
  }

  /** Requested slots hold views, the others what the buffer held before. */
  predicate FilledFrom(buffer: seq<FastNumeric>, slots: seq<nat>, n: nat, views: seq<FastNumeric>, r: seq<FastNumeric>)
    requires n <= |slots|
  {
    && |r| == |views| == |buffer|
    && forall o {:trigger r[o]} :: 0 <= o < |r| ==> r[o] == if o in slots[..n] then views[o] else buffer[o]
  }

  lemma {:induction false} FixedSlotsFill(columns: seq<ColumnSchema>, indices: seq<nat>, b: bytes, slots: seq<nat>, n: nat,
      buffer: seq<FastNumeric>, views: seq<FastNumeric>)
    requires n <= |slots| && |buffer| == |indices| == |views|
    requires forall s :: 0 <= s < |slots| ==> slots[s] < |indices|
    requires forall o :: 0 <= o < |indices| ==> indices[o] < |columns|
    requires forall o {:trigger views[o]} :: 0 <= o < |indices| && o in slots ==> FixedSlot(columns, b, indices[o]) == Ok(views[o])
    ensures var r := FixedSlots(columns, indices, b, slots, n, buffer);
      r.Ok? && FilledFrom(buffer, slots, n, views, r.value)
    decreases n
  {
    hide FixedSlot;
    if n > 0 {
      FixedSlotsFill(columns, indices, b, slots, n - 1, buffer, views);
      var o := slots[n - 1];
      assert o in slots && views[o] == views[o];
      assert slots[..n] == slots[..n - 1] + [o];
    }
  }

  /** In version 2 and 3 records the numeric decoder meets a number wherever the projection meets one. */
  predicate SlotsShow(values: seq<ColumnValue>, slots: seq<FastNumeric>) {
    && |slots| == |values|
    && forall o {:trigger slots[o]} :: 0 <= o < |slots| ==> Some(slots[o]) == NumericView(values[o])
  }

  /** Every value that a v2 record stores under a wanted id, even one overwritten later, is numeric. */
  predicate LegacyNumeric(columns: seq<ColumnSchema>, indices: seq<nat>, b: bytes, pos: nat, count: nat)
    requires pos <= |b|
    decreases count
  {
    count == 0 ||
    match ReadUnsigned(b, pos, 4)
    case Fail => true
    case Read(id, at) =>
      match DecodeTuple(b, at)
      case Fail => true
      case Read(v, next) =>
        && (Pow256Values(); Output(columns, indices, id).Some? ==> NumericView(v).Some?)
        && LegacyNumeric(columns, indices, b, next, count - 1)
  }

  lemma {:induction false} NumericLegacyAgrees(columns: seq<ColumnSchema>, indices: seq<nat>, b: bytes, pos: nat, count: nat,
      m: map<u32, ColumnValue>, values: seq<ColumnValue>, slots: seq<FastNumeric>)
    requires pos <= |b| && |values| == |indices| && SlotsShow(values, slots)
    requires LegacyNumeric(columns, indices, b, pos, count) && ReadEntries(b, pos, count, m).Read?
    requires ProjectLegacy(columns, indices, b, pos, count, values).Read?
    ensures var general, fast := ProjectLegacy(columns, indices, b, pos, count, values), NumericLegacy(columns, indices, b, pos, count, slots);
      fast.Read? && fast.next == general.next && SlotsShow(general.value, fast.value)
    decreases count
  {
    hide DecodeTuple, SkipTuple, DecodeNumeric, OutputIdx, NumericView;
    if count > 0 {
      var id := ReadUnsigned(b, pos, 4);
      var v := DecodeTuple(b, id.next);
      Pow256Values();
      NumericAgrees(b, id.next);
      SkipAgrees(b, id.next);
      var o := Output(columns, indices, id.value);
      var values' := if o.Some? then values[o.value := v.value] else values;
      var slots' := if o.Some? then slots[o.value := NumericView(v.value).value] else slots;
      assert SlotsShow(values', slots');
      NumericLegacyAgrees(columns, indices, b, v.next, count - 1, m[id.value := v.value], values', slots');
    }
  }

  // For version 3, both paths are compared through the directory entry that holds a column's id.

  predicate DistinctEntryIds(b: bytes, count: nat) {
    forall j, k {:trigger ReadFastEntry(b, count, j), ReadFastEntry(b, count, k)} :: 0 <= j < k < count ==>
      ReadFastEntry(b, count, j).Ok? && ReadFastEntry(b, count, k).Ok? ==>
        ReadFastEntry(b, count, j).value.id != ReadFastEntry(b, count, k).value.id
  }

  lemma WholeNumericAgrees(b: bytes, start: nat, end: nat)
    requires start <= end <= |b| && DecodeWhole(b, start, end).Ok?
    ensures var v := DecodeWhole(b, start, end).value;
      NumericWhole(b, start, end) == if NumericView(v).Some? then Ok(NumericView(v).value) else Err
  {
    hide DecodeTuple, DecodeNumeric, NumericView;
    NumericAgrees(b[start..end], 0);
  }

  /** The values after reading directory entry `k`. */
  function AfterEntry(columns: seq<ColumnSchema>, indices: seq<nat>, b: bytes, count: nat, k: nat, before: seq<ColumnValue>)
    : (r: seq<ColumnValue>)
    requires |before| == |indices|
    ensures |r| == |indices|
  {
    match ReadFastEntry(b, count, k)
    case Err => before
    case Ok(e) =>
      var out, v := Output(columns, indices, e.id), DecodeWhole(b, e.start, e.end);
      if out.Some? && v.Ok? then before[out.value := v.value] else before
  }

  lemma ProjectFastStep(columns: seq<ColumnSchema>, indices: seq<nat>, b: bytes, count: nat, k: nat, before: seq<ColumnValue>)
    requires k < count && |before| == |indices| && ProjectFast(columns, indices, b, count, k, before).Ok?
    ensures ProjectFast(columns, indices, b, count, k, before)
      == ProjectFast(columns, indices, b, count, k + 1, AfterEntry(columns, indices, b, count, k, before))
    ensures ReadFastEntry(b, count, k).Ok?
    ensures var e := ReadFastEntry(b, count, k).value;
      Output(columns, indices, e.id).Some? ==> DecodeWhole(b, e.start, e.end).Ok?
  {
    hide DecodeWhole, OutputIdx, ReadFastEntry;
  }

  lemma EntryOfOutput(columns: seq<ColumnSchema>, indices: seq<nat>, o: nat, id: u32)
    requires DistinctIds(columns) && DistinctInRange(columns, indices) && o < |indices|
    ensures Output(columns, indices, id) == Some(o) <==> id == ColumnId(columns, indices, o)
  {
    OutputOfId(columns, indices, o, |indices|);
  }

  /** An output whose id does not occur any more keeps its value. */
  lemma {:induction false} OutputUntouched(columns: seq<ColumnSchema>, indices: seq<nat>, b: bytes, count: nat, k: nat,
      before: seq<ColumnValue>, o: nat)
    requires DistinctIds(columns) && DistinctInRange(columns, indices) && o < |indices|
    requires k <= count && |before| == |indices| && ProjectFast(columns, indices, b, count, k, before).Ok?
    requires forall j {:trigger ReadFastEntry(b, count, j)} :: k <= j < count && ReadFastEntry(b, count, j).Ok? ==>
      ReadFastEntry(b, count, j).value.id != ColumnId(columns, indices, o)
    ensures ProjectFast(columns, indices, b, count, k, before).value[o] == before[o]
    decreases count - k
  {
    if k < count {
      hide DecodeWhole, OutputIdx, ReadFastEntry;
      ProjectFastStep(columns, indices, b, count, k, before);
      EntryOfOutput(columns, indices, o, ReadFastEntry(b, count, k).value.id);
      OutputUntouched(columns, indices, b, count, k + 1, AfterEntry(columns, indices, b, count, k, before), o);
    }
  }

  /** An output holds the value of the directory entry with its column's id. */
  lemma {:induction false} OutputHolds(columns: seq<ColumnSchema>, indices: seq<nat>, b: bytes, count: nat, k: nat,
      before: seq<ColumnValue>, o: nat, j: nat)
    requires DistinctIds(columns) && DistinctInRange(columns, indices) && DistinctEntryIds(b, count) && o < |indices|
    requires k <= j < count && |before| == |indices| && ProjectFast(columns, indices, b, count, k, before).Ok?
    ensures ReadFastEntry(b, count, j).Ok?
    ensures var e := ReadFastEntry(b, count, j).value;
      e.id == ColumnId(columns, indices, o) ==>
        DecodeWhole(b, e.start, e.end) == Ok(ProjectFast(columns, indices, b, count, k, before).value[o])
    decreases count - k
  {
    hide DecodeWhole, OutputIdx, ReadFastEntry, ProjectFast;
    ProjectFastStep(columns, indices, b, count, k, before);
    var after := AfterEntry(columns, indices, b, count, k, before);
    if j > k {
      OutputHolds(columns, indices, b, count, k + 1, after, o, j);
    } else {
      var e := ReadFastEntry(b, count, k).value;
      EntryOfOutput(columns, indices, o, e.id);
      if e.id == ColumnId(columns, indices, o) {
        forall i {:trigger ReadFastEntry(b, count, i)} | k + 1 <= i < count && ReadFastEntry(b, count, i).Ok?
          ensures ReadFastEntry(b, count, i).value.id != ColumnId(columns, indices, o)
        {
          assert ReadFastEntry(b, count, k).value.id != ReadFastEntry(b, count, i).value.id;
        }
        OutputUntouched(columns, indices, b, count, k + 1, after, o);
      }
    }
  }

  lemma {:induction false} SearchAgrees(columns: seq<ColumnSchema>, indices: seq<nat>, b: bytes, count: nat, k: nat,
      before: seq<ColumnValue>, slots: seq<FastNumeric>)
    requires DistinctIds(columns) && DistinctInRange(columns, indices) && DistinctEntryIds(b, count)
    requires k <= count && |before| == |indices| && SlotsShow(before, slots)
    requires ProjectFast(columns, indices, b, count, k, before).Ok? && AllNumeric(ProjectFast(columns, indices, b, count, k, before).value)
    ensures var r := SearchSlots(columns, indices, b, count, k, slots);
      r.Ok? && SlotsShow(ProjectFast(columns, indices, b, count, k, before).value, r.value)
    decreases count - k
  {
    hide DecodeWhole, OutputIdx, ReadFastEntry, NumericView, NumericWhole;
    if k < count {
      ProjectFastStep(columns, indices, b, count, k, before);
      var e := ReadFastEntry(b, count, k).value;
      var out := Output(columns, indices, e.id);
      if out.Some? {
        EntryOfOutput(columns, indices, out.value, e.id);
        OutputHolds(columns, indices, b, count, k, before, out.value, k);
        var v := DecodeWhole(b, e.start, e.end).value;
        assert ProjectFast(columns, indices, b, count, k, before).value[out.value] == v;
        WholeNumericAgrees(b, e.start, e.end);
        SearchAgrees(columns, indices, b, count, k + 1, before[out.value := v], slots[out.value := NumericView(v).value]);
      } else {
        SearchAgrees(columns, indices, b, count, k + 1, before, slots);
      }
    }
  }

  /** The direct path, where it does not give up, fills every slot with the value that the search finds. */
  lemma {:induction false} DirectAgrees(columns: seq<ColumnSchema>, indices: seq<nat>, b: bytes, count: nat, o: nat,
      before: seq<ColumnValue>, slots: seq<FastNumeric>)
    requires DistinctIds(columns) && DistinctInRange(columns, indices) && DistinctEntryIds(b, count)
    requires o <= |indices| == |slots| == |before| && ProjectFast(columns, indices, b, count, 0, before).Ok?
    requires AllNumeric(ProjectFast(columns, indices, b, count, 0, before).value) && DirectPossible(columns, indices, count)
    requires var values := ProjectFast(columns, indices, b, count, 0, before).value;
      forall p {:trigger slots[p]} :: 0 <= p < o ==> Some(slots[p]) == NumericView(values[p])
    ensures var r, values := DirectSlots(columns, indices, b, count, o, slots), ProjectFast(columns, indices, b, count, 0, before).value;
      !r.DirectError? && (r.Filled? ==> SlotsShow(values, r.slots))
    decreases |indices| - o
  {
    hide DecodeWhole, ReadFastEntry, NumericView, NumericWhole, ProjectFast, DistinctEntryIds, OutputIdx;
    if o < |indices| {
      OutputHolds(columns, indices, b, count, 0, before, o, indices[o]);
      var values := ProjectFast(columns, indices, b, count, 0, before).value;
      var e := ReadFastEntry(b, count, indices[o]);
      if e.value.id == ColumnId(columns, indices, o) {
        WholeNumericAgrees(b, e.value.start, e.value.end);
        DirectAgrees(columns, indices, b, count, o + 1, before, slots[o := NumericView(values[o]).value]);
      }
    }
  }

  // The two paths against each other, on any bytes on which the search succeeds.

  /** The slots after searching directory entry `k`. */
  function AfterSearch(columns: seq<ColumnSchema>, indices: seq<nat>, b: bytes, count: nat, k: nat, before: seq<FastNumeric>)
    : (r: seq<FastNumeric>)
    requires |before| == |indices|
    ensures |r| == |indices|
  {
    match ReadFastEntry(b, count, k)
    case Err => before
    case Ok(e) =>
      var out, x := Output(columns, indices, e.id), NumericWhole(b, e.start, e.end);
      if out.Some? && x.Ok? then before[out.value := x.value] else before
  }

  lemma SearchStep(columns: seq<ColumnSchema>, indices: seq<nat>, b: bytes, count: nat, k: nat, before: seq<FastNumeric>)
    requires k < count && |before| == |indices| && SearchSlots(columns, indices, b, count, k, before).Ok?
    ensures SearchSlots(columns, indices, b, count, k, before)
      == SearchSlots(columns, indices, b, count, k + 1, AfterSearch(columns, indices, b, count, k, before))
    ensures ReadFastEntry(b, count, k).Ok?
    ensures var e := ReadFastEntry(b, count, k).value;
      Output(columns, indices, e.id).Some? ==> NumericWhole(b, e.start, e.end).Ok?
  {
    hide NumericWhole, OutputIdx, ReadFastEntry;
  }

  lemma {:induction false} SlotUntouched(columns: seq<ColumnSchema>, indices: seq<nat>, b: bytes, count: nat, k: nat,
      before: seq<FastNumeric>, o: nat)
    requires DistinctIds(columns) && DistinctInRange(columns, indices) && o < |indices|
    requires k <= count && |before| == |indices| && SearchSlots(columns, indices, b, count, k, before).Ok?
    requires forall j {:trigger ReadFastEntry(b, count, j)} :: k <= j < count && ReadFastEntry(b, count, j).Ok? ==>
      ReadFastEntry(b, count, j).value.id != ColumnId(columns, indices, o)
    ensures SearchSlots(columns, indices, b, count, k, before).value[o] == before[o]
    decreases count - k
  {
    if k < count {
      hide NumericWhole, OutputIdx, ReadFastEntry;
      SearchStep(columns, indices, b, count, k, before);
      EntryOfOutput(columns, indices, o, ReadFastEntry(b, count, k).value.id);
      SlotUntouched(columns, indices, b, count, k + 1, AfterSearch(columns, indices, b, count, k, before), o);
    }
  }

  lemma {:induction false} SlotHolds(columns: seq<ColumnSchema>, indices: seq<nat>, b: bytes, count: nat, k: nat,
      before: seq<FastNumeric>, o: nat, j: nat)
    requires DistinctIds(columns) && DistinctInRange(columns, indices) && DistinctEntryIds(b, count) && o < |indices|
    requires k <= j < count && |before| == |indices| && SearchSlots(columns, indices, b, count, k, before).Ok?
    ensures ReadFastEntry(b, count, j).Ok?
    ensures var e := ReadFastEntry(b, count, j).value;
      e.id == ColumnId(columns, indices, o) ==>
        NumericWhole(b, e.start, e.end) == Ok(SearchSlots(columns, indices, b, count, k, before).value[o])
    decreases count - k
  {
    hide NumericWhole, OutputIdx, ReadFastEntry, SearchSlots;
    SearchStep(columns, indices, b, count, k, before);
    var after := AfterSearch(columns, indices, b, count, k, before);
    if j > k {
      SlotHolds(columns, indices, b, count, k + 1, after, o, j);
    } else {
      var e := ReadFastEntry(b, count, k).value;
      EntryOfOutput(columns, indices, o, e.id);
      if e.id == ColumnId(columns, indices, o) {
        forall i {:trigger ReadFastEntry(b, count, i)} | k + 1 <= i < count && ReadFastEntry(b, count, i).Ok?
          ensures ReadFastEntry(b, count, i).value.id != ColumnId(columns, indices, o)
        {
          assert ReadFastEntry(b, count, k).value.id != ReadFastEntry(b, count, i).value.id;
        }
        SlotUntouched(columns, indices, b, count, k + 1, after, o);
      }
    }
  }

  /**
   * With distinct directory ids, whenever the fallback search succeeds, the direct path does not fail, and
   * if it fills the slots it fills them with what the search finds.
   */
  lemma {:induction false} DirectIsSearch(columns: seq<ColumnSchema>, indices: seq<nat>, b: bytes, count: nat, o: nat,
      before: seq<FastNumeric>, slots: seq<FastNumeric>)
    requires DistinctIds(columns) && DistinctInRange(columns, indices) && DistinctEntryIds(b, count) && DirectPossible(columns, indices, count)
    requires o <= |indices| == |slots| == |before| && SearchSlots(columns, indices, b, count, 0, before).Ok?
    requires slots[..o] == SearchSlots(columns, indices, b, count, 0, before).value[..o]
    ensures var r := DirectSlots(columns, indices, b, count, o, slots);
      !r.DirectError? && (r.Filled? ==> r.slots == SearchSlots(columns, indices, b, count, 0, before).value)
    decreases |indices| - o
  {
    hide ReadFastEntry, NumericWhole, SearchSlots, DistinctEntryIds, OutputIdx;
    var found := SearchSlots(columns, indices, b, count, 0, before).value;
    if o < |indices| {
      SlotHolds(columns, indices, b, count, 0, before, o, indices[o]);
      var e := ReadFastEntry(b, count, indices[o]).value;
      if e.id == ColumnId(columns, indices, o) {
        var x := NumericWhole(b, e.start, e.end).value;
        assert slots[o := x][..o + 1] == slots[..o] + [x] == found[..o + 1];
        DirectIsSearch(columns, indices, b, count, o + 1, before, slots[o := x]);
      }
    } else {
      assert slots[..o] == slots && found[..o] == found;
    }
  }

  /** What a record must be for its fast slots to be the views of its projected values. */
  predicate FastReadable(columns: seq<ColumnSchema>, indices: seq<nat>, b: bytes) {
    && b != []
    && (b[0] == FIXED_VERSION ==> forall o {:trigger indices[o]} :: 0 <= o < |indices| ==> OffsetsFit(columns, b, indices[o]))
    && (b[0] == LEGACY_VERSION && DecodeHeader(b).Ok? ==> LegacyNumeric(columns, indices, b, HEADER_LEN, DecodeHeader(b).value.count))
    && (b[0] == FAST_VERSION && FastHeader(b).Ok? ==> DistinctEntryIds(b, FastHeader(b).value.count))
  }

  lemma LegacyDecodeAgrees(columns: seq<ColumnSchema>, indices: seq<nat>, b: bytes, slots: seq<nat>, buffer: seq<FastNumeric>)
    requires b != [] && b[0] == LEGACY_VERSION && FastReadable(columns, indices, b) && |buffer| == |indices|
    requires DecodeRow(columns, b).Ok? && Project(columns, indices, b).Ok?
    ensures FastDecode(columns, indices, b, slots, buffer).Ok?
    ensures SlotsShow(Project(columns, indices, b).value, FastDecode(columns, indices, b, slots, buffer).value)
  {
    hide ProjectLegacy, NumericLegacy, ReadEntries, LegacyNumeric, RowOf;
    NumericLegacyAgrees(columns, indices, b, HEADER_LEN, DecodeHeader(b).value.count, map[],
      NullValues(|indices|), NullSlots(|indices|));
  }

  lemma FastDecodeV3Agrees(columns: seq<ColumnSchema>, indices: seq<nat>, b: bytes, slots: seq<nat>, buffer: seq<FastNumeric>)
    requires DistinctIds(columns) && DistinctInRange(columns, indices)
    requires b != [] && b[0] == FAST_VERSION && FastReadable(columns, indices, b) && |buffer| == |indices|
    requires Project(columns, indices, b).Ok? && AllNumeric(Project(columns, indices, b).value)
    ensures FastDecode(columns, indices, b, slots, buffer).Ok?
    ensures SlotsShow(Project(columns, indices, b).value, FastDecode(columns, indices, b, slots, buffer).value)
  {
    hide ProjectFast, SearchSlots, DirectSlots, FastHeader, DistinctEntryIds, DirectPossible, NumericView;
    var count := FastHeader(b).value.count;
    var nulls, nullSlots := NullValues(|indices|), NullSlots(|indices|);
    assert NumericView(Null) == Some(NullSlot) by { NullHasView(); }
    SearchAgrees(columns, indices, b, count, 0, nulls, nullSlots);
    if DirectPossible(columns, indices, count) {
      DirectAgrees(columns, indices, b, count, 0, nulls, nullSlots);
    }
  }

  lemma NullHasView()
    ensures NumericView(Null) == Some(NullSlot)
  {
  }

  lemma FixedDecodeAgrees(columns: seq<ColumnSchema>, indices: seq<nat>, b: bytes, slots: seq<nat>, buffer: seq<FastNumeric>)
    requires DistinctInRange(columns, indices) && |buffer| == |indices|
    requires forall o {:trigger indices[o]} :: 0 <= o < |indices| ==> FastNumericType(columns[indices[o]].dataType)
    requires forall s :: 0 <= s < |slots| ==> slots[s] < |indices|
    requires b != [] && b[0] == FIXED_VERSION && FastReadable(columns, indices, b) && Project(columns, indices, b).Ok?
    ensures AllNumeric(Project(columns, indices, b).value)
    ensures FastDecode(columns, indices, b, slots, buffer).Ok?
    ensures FilledFrom(buffer, slots, |slots|, Views(Project(columns, indices, b).value), FastDecode(columns, indices, b, slots, buffer).value)
  {
    hide ProjectFixed, FixedSlot, FixedSlots, FixedLayout, DecodeColumn, NumericView, FilledFrom, Views;
    var values := Project(columns, indices, b).value;
    var layout := FixedLayout(columns, b).value;
    forall o | 0 <= o < |indices|
      ensures NumericView(values[o]).Some? && FixedSlot(columns, b, indices[o]) == Ok(NumericView(values[o]).value)
    {
      ProjectFixedAt(columns, indices, b, layout, |indices|, o);
      assert OffsetsFit(columns, b, indices[o]);
      FixedSlotAgrees(columns, b, indices[o]);
    }
    FixedSlotsFill(columns, indices, b, slots, |slots|, buffer, Views(values));
  }

  lemma {:induction false} ProjectFixedAt(columns: seq<ColumnSchema>, indices: seq<nat>, b: bytes, layout: Layout, n: nat, o: nat)
    requires layout.count <= |columns| && o < n <= |indices| && ProjectFixed(columns, indices, b, layout, n).Ok?
    ensures DecodeColumn(columns, b, layout, indices[o]) == Ok(ProjectFixed(columns, indices, b, layout, n).value[o])
    decreases n
  {
    hide DecodeColumn;
    if o < n - 1 {
      ProjectFixedAt(columns, indices, b, layout, n - 1, o);
    }
  }

  /**
   * Precomputed-offset decoding agrees with the general projection, in every format and whatever the reused
   * buffer held before: requested slots hold the views of the projected values.
   */
  lemma FastDecodeAgrees(columns: seq<ColumnSchema>, indices: seq<nat>, b: bytes, slots: seq<nat>, buffer: seq<FastNumeric>)
    requires DistinctIds(columns) && DistinctInRange(columns, indices) && |buffer| == |indices|
    requires forall o {:trigger indices[o]} :: 0 <= o < |indices| ==> FastNumericType(columns[indices[o]].dataType)
    requires forall s :: 0 <= s < |slots| ==> slots[s] < |indices|
    requires DecodeRow(columns, b).Ok? && Project(columns, indices, b).Ok? && AllNumeric(Project(columns, indices, b).value)
    requires FastReadable(columns, indices, b)
    ensures FastDecode(columns, indices, b, slots, buffer).Ok?
    ensures var r, views := FastDecode(columns, indices, b, slots, buffer).value, Views(Project(columns, indices, b).value);
      if b[0] == FIXED_VERSION then FilledFrom(buffer, slots, |slots|, views, r) else r == views
  {
    hide FastDecode, Project, NumericView, FilledFrom;
    if b[0] == FIXED_VERSION {
      FixedDecodeAgrees(columns, indices, b, slots, buffer);
    } else if b[0] == FAST_VERSION {
      FastDecodeV3Agrees(columns, indices, b, slots, buffer);
    } else {
      assert b[0] == LEGACY_VERSION by { DecodableVersions(columns, b); }
      LegacyDecodeAgrees(columns, indices, b, slots, buffer);
    }
  }

  lemma DecodableVersions(columns: seq<ColumnSchema>, b: bytes)
    requires DecodeRow(columns, b).Ok?
    ensures b != [] && (b[0] == LEGACY_VERSION || b[0] == FAST_VERSION || b[0] == FIXED_VERSION)
  {
  }
}
