/** The byte order of primary keys against the order of their values, kind by kind. */
module KeyOrder {
  import opened Basics
  import opened Bytes
  import opened Floats
  import opened Values
  import opened Reader
  import opened TupleCodec
  import opened KeyCodec
  import opened FastNumericDecode
  import opened SlotComparison
  import opened TopNOrder
  import NumericOrder
  import Decimal

  /** Kinds whose values are strings, encoded with their length in front. */
  predicate StringKind(t: DataType) {
    t in {TextType, DateType, TimestampType, TimestampTzType, UuidType, ByteaType}
  }

  predicate IsKey(t: DataType, v: ColumnValue) {
    Orderable(t, v) && !v.Null?
  }

  /** The string that a string or NUMERIC key spells. */
  function KeyText(v: ColumnValue): bytes {
    if v.Numeric? then v.str else Spelling(v)
  }

  /** Where the key of `v` comes before that of `w`. */
  predicate KeyBefore(v: ColumnValue, w: ColumnValue) {
    if IsInt(v) && IsInt(w) then IntOf(v) < IntOf(w)
    else if v.Float32? && w.Float32? then Before32(v.bits32, w.bits32)
    else if v.Float64? && w.Float64? then Before64(v.bits64, w.bits64)
    else if v.Boolean? && w.Boolean? then !v.truth && w.truth
    else ShorterOrBefore(KeyText(v), KeyText(w))
  }

  /** Byte order of the keys of one kind, whatever the kind. */
  lemma KeyBytesOrder(t: DataType, v: ColumnValue, w: ColumnValue)
    requires OrderableType(t) && IsKey(t, v) && IsKey(t, w) && KeySized(v) && KeySized(w)
    ensures Lt(EncodeKey(v), EncodeKey(w)) <==> KeyBefore(v, w)
  {
    if StringKind(t) || t == NumericType {
      StringKeyOrder(t, v, w);
    } else if t == BooleanType {
      BooleanKeyOrder(v, w);
    } else {
      NumberKeyOrder(t, v, w);
    }
  }

  lemma StringKeyOrder(t: DataType, v: ColumnValue, w: ColumnValue)
    requires (StringKind(t) || t == NumericType) && IsKey(t, v) && IsKey(t, w) && KeySized(v) && KeySized(w)
    ensures Lt(EncodeKey(v), EncodeKey(w)) <==> KeyBefore(v, w)
  {
    hide Lt, PushSegment, ShorterOrBefore, EncodeKey, KeyText;
    StringKeyIs(t, v);
    StringKeyIs(t, w);
    SegmentOrder(if t == ByteaType then 7 else 4, KeyText(v), KeyText(w));
    StringKeyBefore(t, v, w);
  }

  predicate IsString(v: ColumnValue) {
    v.Numeric? || v.Text? || v.Date? || v.Timestamp? || v.TimestampTz? || v.Uuid?
  }

  lemma StringKeyIs(t: DataType, v: ColumnValue)
    requires (StringKind(t) || t == NumericType) && IsKey(t, v) && KeySized(v)
    ensures EncodeKey(v) == [if t == ByteaType then 7 else 4] + PushSegment(KeyText(v)) && |KeyText(v)| < 0x1_0000_0000
  {
    hide PushSegment, Decimal.Parse, EncodeKey, KeySized, KeyText;
    StringVariant(t, v);
    StringEncoding(v);
  }

  lemma StringVariant(t: DataType, v: ColumnValue)
    requires (StringKind(t) || t == NumericType) && IsKey(t, v)
    ensures if t == ByteaType then v.Bytea? else IsString(v)
  {
    hide Decimal.Parse;
  }

  lemma StringEncoding(v: ColumnValue)
    requires (v.Bytea? || IsString(v)) && KeySized(v)
    ensures EncodeKey(v) == [if v.Bytea? then 7 else 4] + PushSegment(KeyText(v)) && |KeyText(v)| < 0x1_0000_0000
  {
    hide PushSegment;
  }

  lemma StringKeyBefore(t: DataType, v: ColumnValue, w: ColumnValue)
    requires (StringKind(t) || t == NumericType) && IsKey(t, v) && IsKey(t, w)
    ensures KeyBefore(v, w) <==> ShorterOrBefore(KeyText(v), KeyText(w))
  {
    hide ShorterOrBefore, Before32, Before64, KeyText;
    StringVariant(t, v);
    StringVariant(t, w);
  }

  lemma BooleanKeyOrder(v: ColumnValue, w: ColumnValue)
    requires v.Boolean? && w.Boolean?
    ensures Lt(EncodeKey(v), EncodeKey(w)) <==> KeyBefore(v, w)
  {
    var x, y := if v.truth then 1 else 0, if w.truth then 1 else 0;
    assert EncodeKey(v) == [1] + [x] && EncodeKey(w) == [1] + [y];
    LtCommonPrefix([1], [x], [y]);
    assert [x][1..] == [] && [y][1..] == [];
  }

  lemma NumberKeyOrder(t: DataType, v: ColumnValue, w: ColumnValue)
    requires FastNumericType(t) && IsKey(t, v) && IsKey(t, w)
    ensures Lt(EncodeKey(v), EncodeKey(w)) <==> KeyBefore(v, w)
  {
    hide Lt, EncodeKey, Before32, Before64;
    if v.Float32? || v.Float64? {
      FloatKeyOrder(v, w);
    } else {
      IntKeyOrder(v, w);
    }
  }

  /**
   * What a pair of keys must satisfy for key order to follow value order: nothing if they are numbers or booleans;
   * strings of different lengths must have the shorter one first; NUMERIC texts must be in number order both when
   * one is shorter and when they differ at one length.
   */
  predicate StepsUp(v: ColumnValue, w: ColumnValue) {
    if v.Numeric? && w.Numeric? then ShorterOrBefore(v.str, w.str) ==> Decimal.NumericCmp(v.str, w.str) != Greater
    else |Spelling(v)| < |Spelling(w)| ==> Lt(Spelling(v), Spelling(w))
  }

  /** And that is exactly when the key that comes first is no greater. */
  lemma StepsUpExactly(t: DataType, v: ColumnValue, w: ColumnValue)
    requires OrderableType(t) && IsKey(t, v) && IsKey(t, w)
    ensures (KeyBefore(v, w) ==> PartialCmp(v, w) != Some(Greater)) <==> StepsUp(v, w)
  {
    if StringKind(t) {
      StringsStepUp(t, v, w);
    } else if t == NumericType {
      NumericsStepUp(v, w);
    } else {
      NumbersStepUp(t, v, w);
    }
  }

  lemma StringsStepUp(t: DataType, v: ColumnValue, w: ColumnValue)
    requires StringKind(t) && IsKey(t, v) && IsKey(t, w)
    ensures (KeyBefore(v, w) ==> PartialCmp(v, w) != Some(Greater)) <==> StepsUp(v, w)
  {
    hide Lt, ValidUtf8;
    LtTotal(Spelling(v), Spelling(w));
  }

  lemma NumericsStepUp(v: ColumnValue, w: ColumnValue)
    requires v.Numeric? && w.Numeric?
    ensures (KeyBefore(v, w) ==> PartialCmp(v, w) != Some(Greater)) <==> StepsUp(v, w)
  {
    hide Decimal.NumericCmp, ShorterOrBefore;
  }

  lemma NumbersStepUp(t: DataType, v: ColumnValue, w: ColumnValue)
    requires (FastNumericType(t) || t == BooleanType) && IsKey(t, v) && IsKey(t, w)
    ensures (KeyBefore(v, w) ==> PartialCmp(v, w) != Some(Greater)) <==> StepsUp(v, w)
  {
    hide PartialCmp, StepsUp, Rank, KeyBefore, Orderable, Spelling;
    PartialCmpIs(t, v, w);
    NumberVariant(t, v);
    NotNumeric(t, v);
    NoSpelling(v);
    NumberVariant(t, w);
    NoSpelling(w);
    StepsAtOneLength(v, w);
    if KeyBefore(v, w) {
      BeforeIsNoGreater(t, v, w);
    }
  }

  lemma BeforeIsNoGreater(t: DataType, v: ColumnValue, w: ColumnValue)
    requires (FastNumericType(t) || t == BooleanType) && IsKey(t, v) && IsKey(t, w) && KeyBefore(v, w)
    ensures Rank(v) <= Rank(w)
  {
    hide Value32, Value64;
  }

  /** Numbers and booleans, and strings of one length, always step up. */
  lemma StepsUpByKind(t: DataType, v: ColumnValue, w: ColumnValue)
    requires OrderableType(t) && IsKey(t, v) && IsKey(t, w)
    ensures !StringKind(t) && t != NumericType ==> StepsUp(v, w) && KeySized(v)
    ensures t != NumericType && |Spelling(v)| == |Spelling(w)| ==> StepsUp(v, w)
  {
    hide StepsUp, KeySized, Spelling, IsKey, StringKind;
    if t != NumericType {
      NotNumeric(t, v);
      StepsAtOneLength(v, w);
      if !StringKind(t) {
        NumberVariant(t, v);
        NumberVariant(t, w);
        NoSpelling(v);
        NoSpelling(w);
      }
    }
  }

  lemma NotNumeric(t: DataType, v: ColumnValue)
    requires t != NumericType && IsKey(t, v)
    ensures !v.Numeric?
  {
    hide Decimal.Parse;
  }

  lemma StepsAtOneLength(v: ColumnValue, w: ColumnValue)
    requires !v.Numeric?
    ensures |Spelling(v)| == |Spelling(w)| ==> StepsUp(v, w)
  {
  }

  lemma NumberVariant(t: DataType, v: ColumnValue)
    requires OrderableType(t) && !StringKind(t) && t != NumericType && IsKey(t, v)
    ensures v.Boolean? || IsInt(v) || IsFloat(v)
  {
    hide Decimal.Parse;
  }

  lemma NoSpelling(v: ColumnValue)
    requires v.Boolean? || IsInt(v) || IsFloat(v)
    ensures Spelling(v) == [] && KeySized(v)
  {
  }

  // ---------------------------------------------------------------------------------------------
  // Ties.

  /** Kinds of keys that compare as equal only when they are the same: not floats, for -0 and 0, and not NUMERIC. */
  predicate TellsApart(t: DataType) {
    OrderableType(t) && t !in {Float32Type, Float64Type, NumericType}
  }

  lemma DistinctNeverTie(t: DataType, v: ColumnValue, w: ColumnValue)
    requires TellsApart(t) && IsKey(t, v) && IsKey(t, w) && PartialCmp(v, w) == Some(Equal)
    ensures v == w
  {
    hide PartialCmp, Lt, Rank, Spelling, Orderable, FastNumericType;
    PartialCmpIs(t, v, w);
    LtTotal(Spelling(v), Spelling(w));
    SameRankAndSpelling(t, v, w);
  }

  lemma SameRankAndSpelling(t: DataType, v: ColumnValue, w: ColumnValue)
    requires TellsApart(t) && IsKey(t, v) && IsKey(t, w)
    requires if FastNumericType(t) || t == BooleanType then Rank(v) == Rank(w) else Spelling(v) == Spelling(w)
    ensures v == w
  {
    hide Rank, Spelling;
    if FastNumericType(t) || t == BooleanType {
      SameRank(t, v, w);
    } else {
      SameSpelling(t, v, w);
    }
  }

  lemma SameRank(t: DataType, v: ColumnValue, w: ColumnValue)
    requires IntegerType(t) || t == BooleanType
    requires IsKey(t, v) && IsKey(t, w) && Rank(v) == Rank(w)
    ensures v == w
  {
    hide Value32, Value64, Decimal.Parse;
  }

  lemma SameSpelling(t: DataType, v: ColumnValue, w: ColumnValue)
    requires StringKind(t) && IsKey(t, v) && IsKey(t, w) && Spelling(v) == Spelling(w)
    ensures v == w
  {
    hide Value32, Value64, Decimal.Parse, ValidUtf8;
  }
}
