/** When the offsets that slots compute from the current column count fit a row that an earlier schema wrote. */
module SlotOffsets {
  import opened Basics
  import opened Bytes
  import opened Floats
  import opened Values
  import opened TupleCodec
  import opened FixedColumns
  import opened RowFormat
  import opened RowRoundTrip
  import opened FastNumericDecode

  /** The slot of column `i` shows what the general decoder reads there, NULL for a column appended since. */
  predicate SlotRight(more: seq<ColumnSchema>, b: bytes, i: nat)
    requires i < |more|
  {
    && FixedLayout(more, b).Ok?
    && var v := DecodeColumn(more, b, FixedLayout(more, b).value, i);
       v.Ok? && NumericView(v.value).Some? && FixedSlot(more, b, i) == Ok(NumericView(v.value).value)
  }

  ghost predicate Written(schema: TableSchema, values: seq<ColumnValue>) {
    WellTyped(schema.columns, values) && RowFits(schema.columns, values)
  }

  /** Offsets computed from `more` fit: the column was stored, and both counts need a bitmap of one length. */
  predicate OffsetsKept(stored: nat, current: nat, i: nat) {
    i < stored && DivCeil8(stored) == DivCeil8(current)
  }

  lemma KeptIsRight(schema: TableSchema, more: seq<ColumnSchema>, i: nat, values: seq<ColumnValue>, mvcc: Mvcc)
    requires schema.columns <= more && i < |more| && FastNumericType(more[i].dataType) && Written(schema, values)
    requires OffsetsKept(|schema.columns|, |more|, i)
    ensures SlotRight(more, EncodeRowValues(schema, values, mvcc), i)
  {
    hide EncodeRowValues, FixedLayout, DecodeColumn, FixedSlot, LayoutOf, NumericView;
    var b := EncodeRowValues(schema, values, mvcc);
    EncodedLayout(schema, more, values, mvcc);
    StoredColumnOfMore(schema, more, values, mvcc, i);
    LayoutCount(more, |values|);
    FixedSlotAgrees(more, b, i);
  }

  lemma LayoutCount(columns: seq<ColumnSchema>, n: nat)
    requires n <= |columns|
    ensures LayoutOf(columns, n).count == n
  {
  }

  // ---------------------------------------------------------------------------------------------
  // A row that holds one value: behind it, nothing but zeros.

  function OnlyAt(n: nat, i: nat, v: ColumnValue): (r: seq<ColumnValue>)
    ensures |r| == n && forall j :: 0 <= j < n ==> r[j] == if j == i then v else Null
  {
    seq(n, j => if j == i then v else Null)
  }

  predicate ZeroFrom(s: bytes, m: nat) {
    forall k :: m <= k < |s| ==> s[k] == 0
  }

  lemma {:induction false} BeOfZero(w: nat)
    ensures ZeroFrom(Be(0, w), 0)
    decreases w
  {
    if w > 0 {
      BeOfZero(w - 1);
    }
  }

  lemma {:induction false} FixedZeroFrom(columns: seq<ColumnSchema>, values: seq<ColumnValue>, m: nat, n: nat)
    requires m <= n <= |columns| == |values| && forall j :: m <= j < n ==> values[j].Null?
    ensures ZeroFrom(Concat(FixedParts(columns, values), n), FixedSum(columns, m))
    decreases n
  {
    PartSizes(columns, values, n);
    if m < n {
      FixedZeroFrom(columns, values, m, n - 1);
      PartSizes(columns, values, n - 1);
      assert FixedParts(columns, values)[n - 1] == ZeroBytes(ColumnWidth(columns[n - 1]));
    }
  }

  lemma {:induction false} NoPayload(columns: seq<ColumnSchema>, values: seq<ColumnValue>, n: nat)
    requires n <= |columns| == |values| && forall j :: 0 <= j < n ==> values[j].Null? || FixedWidth(columns[j].dataType).Some?
    ensures Concat(PayloadParts(columns, values), n) == []
    decreases n
  {
    if n > 0 {
      NoPayload(columns, values, n - 1);
    }
  }

  lemma {:induction false} DirectoryZero(columns: seq<ColumnSchema>, payload: seq<bytes>, n: nat)
    requires n <= |columns| == |payload| && forall j :: 0 <= j <= n ==> Concat(payload, j) == []
    ensures ZeroFrom(Directory(columns, payload, n), 0)
    decreases n
  {
    if n > 0 {
      DirectoryZero(columns, payload, n - 1);
      BeOfZero(4);
      hide FixedWidth, Be;
      assert Concat(payload, n - 1) == [] && Concat(payload, n) == [];
      assert DirectoryEntry(0, 0) == Be(0, 4) + Be(0, 4);
    }
  }

  /** In a row without payload that is NULL from column `m` on, every byte behind the fields before `m` is zero. */
  lemma ZeroBehindFields(schema: TableSchema, values: seq<ColumnValue>, m: nat, mvcc: Mvcc)
    requires m <= |values| == |schema.columns| && forall j :: m <= j < |values| ==> values[j].Null?
    requires forall j :: 0 <= j < |values| ==> values[j].Null? || FixedWidth(schema.columns[j].dataType).Some?
    ensures ZeroFrom(EncodeRowValues(schema, values, mvcc), HEADER_LEN + DivCeil8(|values|) + FixedSum(schema.columns, m))
    ensures Concat(PayloadParts(schema.columns, values), |values|) == []
  {
    hide Concat, Directory, NullBitmap, FixedParts, PayloadParts, EncodeHeader, EncodeRowValues, FixedSum, VariableCount, FixedWidth, ZeroFrom;
    var columns, n := schema.columns, |values|;
    var payload := PayloadParts(columns, values);
    forall j | 0 <= j <= n ensures Concat(payload, j) == [] {
      NoPayload(columns, values, j);
    }
    FixedZeroFrom(columns, values, m, n);
    DirectoryZero(columns, payload, n);
    SumsMonotone(columns, m, n);
    PartSizes(columns, values, n);
    var back := Concat(FixedParts(columns, values), n) + Directory(columns, payload, n);
    ZeroConcat(Concat(FixedParts(columns, values), n), Directory(columns, payload, n), FixedSum(columns, m));
    ZeroShift(EncodeHeader(RowHeader(schema, mvcc)) + NullBitmap(Nulls(values), n), back, FixedSum(columns, m));
    NoPayloadRow(schema, values, mvcc);
  }

  /** In a row with a value in fixed column `i` alone (or in none), every byte behind that column's field is zero. */
  lemma ZeroBehind(schema: TableSchema, i: nat, v: ColumnValue, mvcc: Mvcc)
    requires i < |schema.columns| ==> FixedWidth(schema.columns[i].dataType).Some?
    ensures var n := |schema.columns|;
      ZeroFrom(EncodeRowValues(schema, OnlyAt(n, i, v), mvcc),
        HEADER_LEN + DivCeil8(n) + FixedSum(schema.columns, if i < n then i + 1 else 0))
    ensures Concat(PayloadParts(schema.columns, OnlyAt(|schema.columns|, i, v)), |schema.columns|) == []
  {
    hide EncodeRowValues, FixedSum, Concat, FixedWidth, ZeroFrom;
    var n := |schema.columns|;
    ZeroBehindFields(schema, OnlyAt(n, i, v), if i < n then i + 1 else 0, mvcc);
  }

  lemma ZeroConcat(s: bytes, t: bytes, m: nat)
    requires ZeroFrom(s, m) && ZeroFrom(t, 0) && m <= |s|
    ensures ZeroFrom(s + t, m)
  {
  }

  lemma ZeroShift(front: bytes, s: bytes, m: nat)
    requires ZeroFrom(s, m)
    ensures ZeroFrom(front + s, |front| + m)
  {
  }

  lemma NoPayloadRow(schema: TableSchema, values: seq<ColumnValue>, mvcc: Mvcc)
    requires |values| == |schema.columns| && Concat(PayloadParts(schema.columns, values), |values|) == []
    ensures var n := |values|;
      EncodeRowValues(schema, values, mvcc) == EncodeHeader(RowHeader(schema, mvcc)) + NullBitmap(Nulls(values), n)
        + (Concat(FixedParts(schema.columns, values), n) + Directory(schema.columns, PayloadParts(schema.columns, values), n))
  {
    hide Concat, Directory, NullBitmap, FixedParts, PayloadParts, EncodeHeader, Nulls;
    var n, columns := |values|, schema.columns;
    Regroup(EncodeHeader(RowHeader(schema, mvcc)), NullBitmap(Nulls(values), n), Concat(FixedParts(columns, values), n),
      Directory(columns, PayloadParts(columns, values), n));
  }

  lemma Regroup(h: bytes, bitmap: bytes, fixed: bytes, directory: bytes)
    ensures h + (bitmap + (fixed + (directory + []))) == h + bitmap + (fixed + directory)
  {
    assert directory + [] == directory;
  }

  // ---------------------------------------------------------------------------------------------
  // Columns whose slot goes wrong.

  /** A value of a fast numeric type whose field ends in a byte other than zero. */
  function One(t: DataType): ColumnValue
    requires FastNumericType(t)
  {
    match t
    case Int16Type => Int16(1)
    case Int32Type => Int32(1)
    case Int64Type => Int64(1)
    case Float32Type => Float32(1)
    case _ => Float64(1)
  }

  /** A field that ends in a zero byte does not read as that value. */
  lemma EndsInZero(t: DataType, w: bytes)
    requires FastNumericType(t) && w != [] && w[|w| - 1] == 0
    ensures DecodeFixedNumeric(t, w) != Ok(NumericView(One(t)).value)
  {
    hide Widen, FromUnsigned, Pow256;
    LastByte(w);
    hide FromBe;
    Pow256Values();
    if |w| in {2, 4, 8} {
      SignedNotOne(FromBe(w), |w|);
    }
    if t == Float32Type && |w| == 4 {
      FloatNotOne(FromBe(w));
    }
  }

  lemma LastByte(w: bytes)
    requires w != []
    ensures FromBe(w) % 256 == w[|w| - 1]
  {
    hide Pow256;
    LastDigit(FromBe(w[..|w| - 1]), w[|w| - 1]);
  }

  lemma LastDigit(q: nat, last: byte)
    ensures (q * 256 + last) % 256 == last
  {
  }

  lemma SignedNotOne(u: nat, w: nat)
    requires u % 256 == 0 && w in {2, 4, 8}
    ensures FromUnsigned(u, w) != 1
  {
    Pow256Values();
  }

  lemma FloatNotOne(bits: f32)
    requires bits % 256 == 0
    ensures Widen(bits) != Widen(1)
  {
    hide WidenMag;
    var m := bits % SIGN32;
    assert m % 256 == 0;
    if m <= INF32 {
      WidenMagOrder(m, 1);
      WidenMagOrder(1, m);
    }
  }

  /** A column appended since is NULL, and its slot is not, in a row of NULLs. */
  lemma AppendedSlotWrong(schema: TableSchema, more: seq<ColumnSchema>, i: nat, mvcc: Mvcc)
    requires schema.columns <= more && |schema.columns| <= i < |more| && |schema.columns| < U32 && FastNumericType(more[i].dataType)
    ensures Written(schema, OnlyAt(|schema.columns|, i, Null))
    ensures !SlotRight(more, EncodeRowValues(schema, OnlyAt(|schema.columns|, i, Null), mvcc), i)
  {
    hide EncodeRowValues, FixedLayout, NullBitmap, Concat, Directory, FixedSum, At;
    var n := |schema.columns|;
    var values := OnlyAt(n, i, Null);
    var b := EncodeRowValues(schema, values, mvcc);
    ZeroBehind(schema, i, Null, mvcc);
    EncodedLayout(schema, more, values, mvcc);
    FirstSum(schema.columns);
    if HEADER_LEN + i / 8 < |b| {
      if i / 8 < DivCeil8(n) {
        EncodedRegions(schema, values, mvcc);
        NullBitAt(Nulls(values), b, i);
      } else {
        NoBitsInZero(i % 8);
      }
      DecodedSlotIsNumber(more, b, i);
    }
  }

  lemma FirstSum(columns: seq<ColumnSchema>)
    ensures FixedSum(columns, 0) == 0
  {
  }

  /** With a longer bitmap expected, a slot reads its field too late: a stored 1 is not read as 1. */
  lemma ShiftedSlotWrong(schema: TableSchema, more: seq<ColumnSchema>, i: nat, mvcc: Mvcc)
    requires schema.columns <= more && i < |schema.columns| < U32 && FastNumericType(more[i].dataType)
    requires DivCeil8(|schema.columns|) != DivCeil8(|more|)
    ensures Written(schema, OnlyAt(|schema.columns|, i, One(more[i].dataType)))
    ensures !SlotRight(more, EncodeRowValues(schema, OnlyAt(|schema.columns|, i, One(more[i].dataType)), mvcc), i)
  {
    hide EncodeRowValues, FixedLayout, Concat, FixedSum, At, TestBit, NullBitmap, Directory, DecodeFixedNumeric, DecodeColumn;
    var n, t := |schema.columns|, more[i].dataType;
    var v := One(t);
    var values := OnlyAt(n, i, v);
    var b := EncodeRowValues(schema, values, mvcc);
    assert schema.columns[i] == more[i];
    ZeroBehind(schema, i, v, mvcc);
    EncodedLayout(schema, more, values, mvcc);
    StoredColumnOfMore(schema, more, values, mvcc, i);
    EncodedRegions(schema, values, mvcc);
    NullBitAt(Nulls(values), b, i);
    NextSum(schema.columns, more, i);
    var w := FixedWidth(t).value;
    var start := HEADER_LEN + DivCeil8(|more|) + FixedSum(more, i);
    if start + w <= |b| {
      EndsInZero(t, b[start..start + w]);
    }
  }

  lemma NextSum(columns: seq<ColumnSchema>, more: seq<ColumnSchema>, i: nat)
    requires columns <= more && i < |columns|
    ensures FixedSum(columns, i + 1) == FixedSum(more, i) + ColumnWidth(more[i])
  {
    SumsOfPrefix(columns, more, i);
  }

  /**
   * For a schema and any extension of it by appended columns: the slot of a fast numeric column is right in
   * every row written under the schema exactly when the column was stored and the two column counts need a
   * null bitmap of the same length.
   */
  lemma SlotRightExactly(schema: TableSchema, more: seq<ColumnSchema>, i: nat)
    requires schema.columns <= more && i < |more| && |schema.columns| < U32 && FastNumericType(more[i].dataType)
    ensures (forall values, mvcc :: Written(schema, values) ==> SlotRight(more, EncodeRowValues(schema, values, mvcc), i))
      <==> OffsetsKept(|schema.columns|, |more|, i)
  {
    hide SlotRight, WellTyped, EncodeRowValues;
    var mvcc := Mvcc(0, 0);
    if OffsetsKept(|schema.columns|, |more|, i) {
      forall values, mvcc | Written(schema, values) ensures SlotRight(more, EncodeRowValues(schema, values, mvcc), i) {
        KeptIsRight(schema, more, i, values, mvcc);
      }
    } else if i >= |schema.columns| {
      AppendedSlotWrong(schema, more, i, mvcc);
    } else {
      ShiftedSlotWrong(schema, more, i, mvcc);
    }
  }

  /** Eight INT2 columns, the first holding 1 and the others NULL: the bitmap takes a byte, the first field two. */
  lemma EightColumns(schema: TableSchema, mvcc: Mvcc)
    requires |schema.columns| == 8 && forall j :: 0 <= j < 8 ==> schema.columns[j].dataType == Int16Type
    ensures var b := EncodeRowValues(schema, OnlyAt(8, 0, Int16(1)), mvcc);
      |b| > 36 && !TestBit(b[33], 0) && b[34] == 0 && b[35] == 1 && b[36] == 0
  {
    hide EncodeRowValues, Concat, At, TestBit, NullBitmap, Directory;
    var values := OnlyAt(8, 0, Int16(1));
    var b := EncodeRowValues(schema, values, mvcc);
    assert FixedSum(schema.columns, 1) == 2;
    hide FixedSum;
    ZeroBehind(schema, 0, Int16(1), mvcc);
    EncodedRegions(schema, values, mvcc);
    NullBitAt(Nulls(values), b, 0);
    EncodedFixed(schema, values, mvcc, 0);
    EncodedFixed(schema, values, mvcc, 1);
    FirstSum(schema.columns);
    OneInTwoBytes();
    ByteAt(b, 34, [0, 1], 0);
    ByteAt(b, 34, [0, 1], 1);
    assert |FixedBytes(schema.columns[1], Null)| == 2;
    FarEnough(b, 36, FixedBytes(schema.columns[1], Null));
  }

  lemma FarEnough(b: bytes, at: nat, s: bytes)
    requires At(b, at, s) && s != []
    ensures at < |b|
  {
  }

  lemma OneInTwoBytes()
    ensures Be(TwosComplement(1, 2), 2) == [0, 1] && FromBe([0, 1]) == 1 && FromBe([1, 0]) == 256
  {
    Pow256Values();
    assert Be(1, 1) == [1] && Be(1, 2) == [0, 1];
    assert FromBe([0]) == 0 && FromBe([1]) == 1;
  }

  /** Read after a ninth column was appended, the first slot of that row shows 256 instead of 1. */
  lemma NinthColumnShifts(schema: TableSchema, ninth: ColumnSchema, mvcc: Mvcc)
    requires |schema.columns| == 8 && forall j :: 0 <= j < 8 ==> schema.columns[j].dataType == Int16Type
    ensures var b := EncodeRowValues(schema, OnlyAt(8, 0, Int16(1)), mvcc);
      FixedSlot(schema.columns, b, 0) == Ok(I64(1)) && FixedSlot(schema.columns + [ninth], b, 0) == Ok(I64(256))
  {
    hide EncodeRowValues, FixedSum, TestBit;
    var b := EncodeRowValues(schema, OnlyAt(8, 0, Int16(1)), mvcc);
    EightColumns(schema, mvcc);
    FirstSum(schema.columns);
    FirstSum(schema.columns + [ninth]);
    OneInTwoBytes();
    Pow256Values();
    hide FromBe;
    assert b[34..36] == [0, 1] && b[35..37] == [1, 0];
  }
}
