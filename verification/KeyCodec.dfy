/** Typed key values: an encoding that is invertible, prefix-free, and ordered like the numbers it encodes. */
module KeyCodec {
  import opened Basics
  import opened Bytes
  import opened Floats
  import opened Values
  import opened Reader
  import opened TupleCodec

  // ---------------------------------------------------------------------------------------------
  // Floats in key order.

  /** `encode_ordered_f32` as a number: flip the sign bit of a non-negative, all bits of a negative. */
  function Ordered32(b: f32): (r: nat)
    ensures r < 0x1_0000_0000
  {
    if b < SIGN32 then b + SIGN32 else 0xFFFF_FFFF - b
  }

  function FromOrdered32(n: u32): f32 {
    if n >= SIGN32 then n - SIGN32 else 0xFFFF_FFFF - n
  }

  function Ordered64(b: f64): (r: nat)
    ensures r < 0x1_0000_0000_0000_0000
  {
    if b < SIGN64 then b + SIGN64 else 0xFFFF_FFFF_FFFF_FFFF - b
  }

  function FromOrdered64(n: u64): f64 {
    if n >= SIGN64 then n - SIGN64 else 0xFFFF_FFFF_FFFF_FFFF - n
  }

  /** totalOrder of section 5.10 of IEEE 754-2019 on numbers: by value, minus zero before plus zero. */
  predicate Before32(a: f32, b: f32) {
    Value32(a) < Value32(b) || (Value32(a) == Value32(b) && a == SIGN32 && b == 0)
  }

  predicate Before64(a: f64, b: f64) {
    Value64(a) < Value64(b) || (Value64(a) == Value64(b) && a == SIGN64 && b == 0)
  }

  lemma Ordered32Embeds(a: f32, b: f32)
    ensures Ordered32(a) < Ordered32(b) <==> Before32(a, b)
    ensures FromOrdered32(Ordered32(a)) == a
  {
    hide Mag32;
    MagnitudeOrder32(a % SIGN32, b % SIGN32);
    MagnitudeOrder32(b % SIGN32, a % SIGN32);
    SignAndMagnitude32(a);
    SignAndMagnitude32(b);
  }

  lemma SignAndMagnitude32(a: f32)
    ensures var m := Mag32(a % SIGN32) as int; Value32(a) == if a < SIGN32 then m else -m
    ensures a == a % SIGN32 + if a < SIGN32 then 0 else SIGN32
  {
    hide Mag32;
    assert a % SIGN32 == if a < SIGN32 then a else a - SIGN32;
  }

  lemma MagnitudeOrder32(x: nat, y: nat)
    ensures x < y ==> Mag32(x) < Mag32(y)
    ensures Mag32(x) == 0 <==> x == 0
  {
    if x < y { MagMonotone(x, y); }
    if x > 0 { MagMonotone(0, x); }
  }

  lemma MagnitudeOrder64(x: nat, y: nat)
    ensures x < y ==> Mag64(x) < Mag64(y)
    ensures Mag64(x) == 0 <==> x == 0
  {
    if x < y { MagMonotone(x, y); }
    if x > 0 { MagMonotone(0, x); }
  }

  lemma SignAndMagnitude64(a: f64)
    ensures var m := Mag64(a % SIGN64) as int; Value64(a) == if a < SIGN64 then m else -m
    ensures a == a % SIGN64 + if a < SIGN64 then 0 else SIGN64
  {
    hide Mag64;
    assert a % SIGN64 == if a < SIGN64 then a else a - SIGN64;
  }

  lemma Ordered64Embeds(a: f64, b: f64)
    ensures Ordered64(a) < Ordered64(b) <==> Before64(a, b)
    ensures FromOrdered64(Ordered64(a)) == a
  {
    MagnitudeOrder64(a % SIGN64, b % SIGN64);
    MagnitudeOrder64(b % SIGN64, a % SIGN64);
    SignAndMagnitude64(a);
    SignAndMagnitude64(b);
  }

  // ---------------------------------------------------------------------------------------------
  // Encoding.

  /** A signed integer with its sign bit flipped, big-endian. */
  function OrderedInt(v: int, w: nat): (r: bytes)
    requires w > 0 && InSigned(v, w)
    ensures |r| == w
  {
    Be(FlipTop(TwosComplement(v, w), w), w)
  }

  function EncodeKey(v: ColumnValue): (r: bytes)
    ensures r != []
    decreases v, 1
  {
    match v
    case Null => [0]
    case Boolean(x) => [1, if x then 1 else 0]
    case Int16(x) => [16] + OrderedInt(x, 2)
    case Int32(x) => [2] + OrderedInt(x, 4)
    case Int64(x) => [3] + OrderedInt(x, 8)
    case Float32(x) => [5] + Be(Ordered32(x), 4)
    case Float64(x) => [6] + Be(Ordered64(x), 8)
    case Bytea(s) => [7] + PushSegment(s)
    case Array(items) => [8] + (Be(|items|, 4) + EncodeKeyItems(items))
    case _ => [4] + PushSegment(v.str)
  }

  function EncodeKeyItems(items: seq<ColumnValue>): bytes
    decreases items, 0
  {
    if items == [] then [] else PushSegment(EncodeKey(items[0])) + EncodeKeyItems(items[1..])
  }

  /** Every length inside the key fits the u32 it is written as. */
  predicate KeySized(v: ColumnValue) {
    match v
    case Bytea(s) => |s| < 0x1_0000_0000
    case Array(items) => |items| < 0x1_0000_0000 &&
      forall i :: 0 <= i < |items| ==> KeySized(items[i]) && |EncodeKey(items[i])| < 0x1_0000_0000
    case _ => TextLength(v) < 0x1_0000_0000
  }

  /** What the encoding remembers of a value: every kind of string becomes plain text. */
  function Erase(v: ColumnValue): ColumnValue
    decreases v, 1
  {
    match v
    case Numeric(s) => Text(s)
    case Date(s) => Text(s)
    case Timestamp(s) => Text(s)
    case TimestampTz(s) => Text(s)
    case Uuid(s) => Text(s)
    case Json(s) => Text(s)
    case Jsonb(s) => Text(s)
    case Array(items) => Array(EraseItems(items))
    case _ => v
  }

  function EraseItems(items: seq<ColumnValue>): (r: seq<ColumnValue>)
    ensures |r| == |items|
    decreases items, 0
  {
    if items == [] then [] else [Erase(items[0])] + EraseItems(items[1..])
  }

  // ---------------------------------------------------------------------------------------------
  // Prefix-freeness.

  lemma SplitEqual(a: bytes, x: bytes, b: bytes, y: bytes)
    requires a + x == b + y && |a| == |b|
    ensures a == b && x == y
  {
    assert (a + x)[..|a|] == a && (b + y)[..|b|] == b;
    assert (a + x)[|a|..] == x && (b + y)[|b|..] == y;
  }

  lemma SegmentsEqual(s: bytes, x: bytes, t: bytes, y: bytes)
    requires |s| < 0x1_0000_0000 && |t| < 0x1_0000_0000
    requires PushSegment(s) + x == PushSegment(t) + y
    ensures s == t && x == y
  {
    Pow256Values();
    assert PushSegment(s) + x == Be(|s|, 4) + (s + x) && PushSegment(t) + y == Be(|t|, 4) + (t + y);
    SplitEqual(Be(|s|, 4), s + x, Be(|t|, 4), t + y);
    BeNumberOrder(|s|, |t|, 4);
    SplitEqual(s, x, t, y);
  }

  lemma TaggedEqual(tag: byte, a: bytes, x: bytes, tag': byte, b: bytes, y: bytes)
    requires [tag] + a + x == [tag'] + b + y
    ensures tag == tag' && a + x == b + y
  {
    assert [tag] + a + x == [tag] + (a + x) && [tag'] + b + y == [tag'] + (b + y);
    SplitEqual([tag], a + x, [tag'], b + y);
  }

  function Tag(v: ColumnValue): byte {
    match v
    case Null => 0
    case Boolean(_) => 1
    case Int16(_) => 16
    case Int32(_) => 2
    case Int64(_) => 3
    case Float32(_) => 5
    case Float64(_) => 6
    case Bytea(_) => 7
    case Array(_) => 8
    case _ => 4
  }

  /** The bytes after the tag. */
  function Body(v: ColumnValue): (r: bytes)
    ensures EncodeKey(v) == [Tag(v)] + r
  {
    match v
    case Null => []
    case Boolean(x) => [if x then 1 else 0]
    case Int16(x) => OrderedInt(x, 2)
    case Int32(x) => OrderedInt(x, 4)
    case Int64(x) => OrderedInt(x, 8)
    case Float32(x) => Be(Ordered32(x), 4)
    case Float64(x) => Be(Ordered64(x), 8)
    case Bytea(s) => PushSegment(s)
    case Array(items) => Be(|items|, 4) + EncodeKeyItems(items)
    case _ => PushSegment(v.str)
  }

  lemma OrderedIntOrder(v: int, v': int, w: nat)
    requires w > 0 && InSigned(v, w) && InSigned(v', w)
    ensures Lt(OrderedInt(v, w), OrderedInt(v', w)) <==> v < v'
    ensures OrderedInt(v, w) == OrderedInt(v', w) <==> v == v'
  {
    SignedRoundTrip(v, w);
    SignedRoundTrip(v', w);
    BeNumberOrder(FlipTop(TwosComplement(v, w), w), FlipTop(TwosComplement(v', w), w), w);
  }

  /**
   * No key is a proper prefix of another, and equal keys mean equal values up to the kind of string: two
   * keys followed by anything can only agree if the values do.
   */
  lemma {:induction false} KeyPrefixFree(v: ColumnValue, x: bytes, w: ColumnValue, y: bytes)
    requires KeySized(v) && KeySized(w) && EncodeKey(v) + x == EncodeKey(w) + y
    ensures Erase(v) == Erase(w) && x == y
    decreases v, 1
  {
    hide EncodeKey, Ordered32, Ordered64, OrderedInt, Be;
    TaggedEqual(Tag(v), Body(v), x, Tag(w), Body(w), y);
    match v {
      case Null => assert w == Null && [] + x == x && [] + y == y;
      case Bytea(s) => SegmentsEqual(s, x, w.raw, y);
      case Array(items) =>
        Pow256Values();
        assert Body(v) + x == Be(|items|, 4) + (EncodeKeyItems(items) + x);
        assert Body(w) + y == Be(|w.items|, 4) + (EncodeKeyItems(w.items) + y);
        SplitEqual(Be(|items|, 4), EncodeKeyItems(items) + x, Be(|w.items|, 4), EncodeKeyItems(w.items) + y);
        BeNumberOrder(|items|, |w.items|, 4);
        KeyItemsPrefixFree(items, x, w.items, y);
      case Boolean(_) => FixedBodyEqual(v, x, w, y);
      case Int16(_) => FixedBodyEqual(v, x, w, y);
      case Int32(_) => FixedBodyEqual(v, x, w, y);
      case Int64(_) => FixedBodyEqual(v, x, w, y);
      case Float32(_) => FixedBodyEqual(v, x, w, y);
      case Float64(_) => FixedBodyEqual(v, x, w, y);
      case _ => SegmentsEqual(v.str, x, w.str, y);
    }
  }

  lemma FixedBodyEqual(v: ColumnValue, x: bytes, w: ColumnValue, y: bytes)
    requires Tag(v) == Tag(w) && Body(v) + x == Body(w) + y && Tag(v) in {1, 2, 3, 5, 6, 16}
    ensures v == w && x == y
  {
    hide Be, Ordered32, Ordered64;
    SplitEqual(Body(v), x, Body(w), y);
    Pow256Values();
    match v {
      case Boolean(a) =>
      case Int16(a) => OrderedIntOrder(a, w.short, 2);
      case Int32(a) => OrderedIntOrder(a, w.int32, 4);
      case Int64(a) => OrderedIntOrder(a, w.int64, 8);
      case Float32(a) => BeNumberOrder(Ordered32(a), Ordered32(w.bits32), 4); OrderedInjective(a, w.bits32, 0, 0);
      case Float64(a) => BeNumberOrder(Ordered64(a), Ordered64(w.bits64), 8); OrderedInjective(0, 0, a, w.bits64);
    }
  }

  lemma OrderedInjective(a: f32, b: f32, c: f64, d: f64)
    ensures Ordered32(a) == Ordered32(b) ==> a == b
    ensures Ordered64(c) == Ordered64(d) ==> c == d
  {
  }

  lemma {:induction false} KeyItemsPrefixFree(v: seq<ColumnValue>, x: bytes, w: seq<ColumnValue>, y: bytes)
    requires |v| == |w| && EncodeKeyItems(v) + x == EncodeKeyItems(w) + y
    requires forall i :: 0 <= i < |v| ==> KeySized(v[i]) && |EncodeKey(v[i])| < 0x1_0000_0000
    requires forall i :: 0 <= i < |w| ==> KeySized(w[i]) && |EncodeKey(w[i])| < 0x1_0000_0000
    ensures EraseItems(v) == EraseItems(w) && x == y
    decreases v, 0
  {
    hide EncodeKey, KeySized, Erase, PushSegment;
    if v == [] {
      assert w == [] && [] + x == x && [] + y == y;
    } else {
      var a, b := EncodeKey(v[0]), EncodeKey(w[0]);
      assert EncodeKeyItems(v) + x == PushSegment(a) + (EncodeKeyItems(v[1..]) + x);
      assert EncodeKeyItems(w) + y == PushSegment(b) + (EncodeKeyItems(w[1..]) + y);
      SegmentsEqual(a, EncodeKeyItems(v[1..]) + x, b, EncodeKeyItems(w[1..]) + y);
      KeyPrefixFree(v[0], [], w[0], []);
      KeyItemsPrefixFree(v[1..], x, w[1..], y);
    }
  }

  /** The encoding depends on nothing but the erased value. */
  lemma {:induction false} KeyOfErased(v: ColumnValue)
    ensures EncodeKey(Erase(v)) == EncodeKey(v)
    decreases v, 1
  {
    if v.Array? {
      KeyItemsOfErased(v.items);
    }
  }

  lemma {:induction false} KeyItemsOfErased(v: seq<ColumnValue>)
    ensures EncodeKeyItems(EraseItems(v)) == EncodeKeyItems(v)
    decreases v, 0
  {
    if v != [] {
      KeyOfErased(v[0]);
      KeyItemsOfErased(v[1..]);
      assert EraseItems(v)[1..] == EraseItems(v[1..]);
    }
  }

  lemma KeyInjective(v: ColumnValue, w: ColumnValue)
    requires KeySized(v) && KeySized(w)
    ensures EncodeKey(v) == EncodeKey(w) <==> Erase(v) == Erase(w)
  {
    if EncodeKey(v) == EncodeKey(w) {
      KeyPrefixFree(v, [], w, []);
    } else {
      KeyOfErased(v);
      KeyOfErased(w);
    }
  }

  // ---------------------------------------------------------------------------------------------
  // Order.

  /** Integer keys of one variant, whatever follows them, sort as the integers do. */
  lemma IntKeyOrder(v: ColumnValue, w: ColumnValue)
    requires (v.Int16? && w.Int16?) || (v.Int32? && w.Int32?) || (v.Int64? && w.Int64?)
    ensures Lt(EncodeKey(v), EncodeKey(w)) <==> IntOf(v) < IntOf(w)
    ensures EncodeKey(v) == EncodeKey(w) <==> v == w
    ensures |EncodeKey(v)| == |EncodeKey(w)|
  {
    hide OrderedInt, EncodeKey;
    OrderedIntOrder(IntOf(v), IntOf(w), |Body(v)|);
    LtCommonPrefix([Tag(v)], Body(v), Body(w));
    assert EncodeKey(v)[1..] == Body(v) && EncodeKey(w)[1..] == Body(w);
  }

  /** Shorter strings first, and strings of one length as bytes. */
  predicate ShorterOrBefore(s: bytes, t: bytes) {
    |s| < |t| || (|s| == |t| && Lt(s, t))
  }

  lemma SegmentOrder(tag: byte, s: bytes, t: bytes)
    requires |s| < 0x1_0000_0000 && |t| < 0x1_0000_0000
    ensures Lt([tag] + PushSegment(s), [tag] + PushSegment(t)) <==> ShorterOrBefore(s, t)
  {
    hide Be, Lt;
    Pow256Values();
    LtCommonPrefix([tag], PushSegment(s), PushSegment(t));
    BeNumberOrder(|s|, |t|, 4);
    if |s| == |t| {
      LtCommonPrefix(Be(|s|, 4), s, t);
    } else {
      LtSameLength(Be(|s|, 4), Be(|t|, 4), s, t);
    }
  }

  /** Text keys are length-prefixed: shorter texts come first, and only texts of one length sort as texts. */
  lemma TextKeyOrder(s: text, t: text)
    requires |s| < 0x1_0000_0000 && |t| < 0x1_0000_0000
    ensures Lt(EncodeKey(Text(s)), EncodeKey(Text(t))) <==> |s| < |t| || (|s| == |t| && Lt(s, t))
  {
    SegmentOrder(4, s, t);
  }

  /** So their keys are not in text order: aa comes before b as text, and after it as a key. */
  lemma TextKeysNotInTextOrder()
    ensures Lt([97, 97], [98]) && Lt(EncodeKey(Text([98])), EncodeKey(Text([97, 97])))
  {
    assert ValidUtf8([98]) && ValidUtf8([97, 97]) by { assert ValidUtf8([]); assert [98][1..] == [] && [97, 97][1..] == [97] && [97][1..] == []; assert ValidUtf8([97]); }
    TextKeyOrder([98], [97, 97]);
  }

  /** Float keys of one width sort by numeric value, minus zero just before plus zero. */
  lemma FloatKeyOrder(v: ColumnValue, w: ColumnValue)
    requires (v.Float32? && w.Float32?) || (v.Float64? && w.Float64?)
    ensures Lt(EncodeKey(v), EncodeKey(w)) <==>
      if v.Float32? then Before32(v.bits32, w.bits32) else Before64(v.bits64, w.bits64)
  {
    hide EncodeKey, Ordered32, Ordered64, Be, Before32, Before64;
    Pow256Values();
    LtCommonPrefix([Tag(v)], Body(v), Body(w));
    if v.Float32? {
      Ordered32Embeds(v.bits32, w.bits32);
      BeNumberOrder(Ordered32(v.bits32), Ordered32(w.bits32), 4);
    } else {
      Ordered64Embeds(v.bits64, w.bits64);
      BeNumberOrder(Ordered64(v.bits64), Ordered64(w.bits64), 8);
    }
  }

  // ---------------------------------------------------------------------------------------------
  // Decoding.

  /** The variant that text is read back as in a column of type `t`, if text keys are readable there. */
  function TextKey(t: DataType, s: text): Option<ColumnValue> {
    match t
    case TextType => Some(Text(s))
    case MySqlText => Some(Text(s))
    case VarChar => Some(Text(s))
    case CharType => Some(Text(s))
    case Time => Some(Text(s))
    case TimeTz => Some(Text(s))
    case Interval => Some(Text(s))
    case NumericType => Some(Numeric(s))
    case DateType => Some(Date(s))
    case MySqlTime => Some(Text(s))
    case TimestampType => Some(Timestamp(s))
    case MySqlDateTime => Some(Timestamp(s))
    case MySqlTimestamp => Some(Timestamp(s))
    case TimestampTzType => Some(TimestampTz(s))
    case UuidType => Some(Uuid(s))
    case JsonType => Some(Json(s))
    case JsonbType => Some(Jsonb(s))
    case Domain => Some(Text(s))
    case Enum => Some(Text(s))
    case Set => Some(Text(s))
    case Geometry => Some(Text(s))
    case _ => None
  }

  /** `decode_mysql_int_key_value`: the plain type that a MySQL integer key is read as. */
  function PlainType(t: DataType): DataType {
    match t
    case MySqlInt(kind, unsigned) =>
      if (kind.Tiny? || kind.Small?) && !unsigned then Int16Type
      else if kind.Tiny? || kind.Small? || kind.Medium? || (kind.Int? && !unsigned) then Int32Type
      else if kind.Int? || !unsigned then Int64Type
      else NumericType
    case MySqlFloat => Float32Type
    case MySqlDouble => Float64Type
    case Binary => ByteaType
    case VarBinary => ByteaType
    case Blob => ByteaType
    case _ => t
  }

  /** The plain type whose variant a column's values are stored as. */
  function StoredKind(t: DataType): DataType {
    match PlainType(t)
    case Bit => Int64Type
    case Year => Int32Type
    case MySqlText => TextType
    case VarChar => TextType
    case CharType => TextType
    case Time => TextType
    case MySqlTime => TextType
    case TimeTz => TextType
    case Interval => TextType
    case Domain => TextType
    case Enum => TextType
    case Set => TextType
    case Geometry => TextType
    case MySqlDateTime => TimestampType
    case MySqlTimestamp => TimestampType
    case p => p
  }

  function DecodeOrderedInt(b: bytes, w: nat): (v: int)
    requires |b| == w && w > 0
    ensures InSigned(v, w)
  {
    FromUnsigned(FlipTop(FromBe(b), w), w)
  }

  /** The arms of `decode_key_value` for a plain type `p` that is no array. */
  function DecodeScalarKey(p: DataType, b: bytes): (r: Result<(ColumnValue, nat)>)
    ensures r.Ok? ==> r.value.1 <= |b|
  {
    Pow256Values();
    if b == [] then Err
    else if b[0] == 0 then Ok((Null, 1))
    else if b[0] == 1 && p == BooleanType then if |b| < 2 then Err else Ok((Boolean(b[1] != 0), 2))
    else if b[0] == 16 && p == Int16Type then if |b| < 3 then Err else Ok((Int16(DecodeOrderedInt(b[1..3], 2)), 3))
    else if b[0] == 2 && p == Int32Type then if |b| < 5 then Err else Ok((Int32(DecodeOrderedInt(b[1..5], 4)), 5))
    else if b[0] == 3 && p == Int64Type then if |b| < 9 then Err else Ok((Int64(DecodeOrderedInt(b[1..9], 8)), 9))
    else if b[0] == 5 && p == Float32Type then
      if |b| < 5 then Err else Ok((Float32(FromOrdered32(FromBe(b[1..5]))), 5))
    else if b[0] == 6 && p == Float64Type then
      if |b| < 9 then Err else Ok((Float64(FromOrdered64(FromBe(b[1..9]))), 9))
    else if (b[0] == 4 && TextKey(p, []).Some?) || (b[0] == 7 && p == ByteaType) then
      match ReadSegment(b, 1)
      case Fail => Err
      case Read(s, next) =>
        if b[0] == 7 then Ok((Bytea(s), next))
        else if ValidUtf8(s) then TextKeyKind(p, s); Ok((TextKey(p, s).value, next))
        else Err
    else Err
  }

  /** `decode_key_value`: the value and how many bytes it took. BIT and YEAR columns have no arm. */
  function DecodeKey(t: DataType, b: bytes): (r: Result<(ColumnValue, nat)>)
    ensures r.Ok? ==> r.value.1 <= |b|
    decreases t, 1, 0
  {
    if t.ArrayType? && b != [] && b[0] == 8 then
      match ReadUnsigned(b, 1, 4)
      case Fail => Err
      case Read(count, next) =>
        match DecodeKeyItems(t.element, b, next, count)
        case Err => Err
        case Ok((items, end)) => Ok((Array(items), end))
    else DecodeScalarKey(PlainType(t), b)
  }

  function DecodeKeyItems(t: DataType, b: bytes, offset: nat, count: nat): (r: Result<(seq<ColumnValue>, nat)>)
    requires offset <= |b|
    ensures r.Ok? ==> r.value.1 <= |b|
    decreases t, 2, count
  {
    if count == 0 then Ok(([], offset))
    else
      match ReadSegment(b, offset)
      case Fail => Err
      case Read(encoded, next) =>
        match DecodeKey(t, encoded)
        case Err => Err
        case Ok((v, used)) =>
          if used != |encoded| then Err
          else
            match DecodeKeyItems(t, b, next, count - 1)
            case Err => Err
            case Ok((vs, end)) => Ok(([v] + vs, end))
  }

  /** Values that a column of type `t` can hold as a key and read back. */
  predicate KeyOf(t: DataType, v: ColumnValue)
    decreases t
  {
    var p := PlainType(t);
    match v
    case Null => true
    case Boolean(_) => p == BooleanType
    case Int16(_) => p == Int16Type
    case Int32(_) => p == Int32Type
    case Int64(_) => p == Int64Type
    case Float32(_) => p == Float32Type
    case Float64(_) => p == Float64Type
    case Bytea(_) => p == ByteaType
    case Array(items) => t.ArrayType? && forall i :: 0 <= i < |items| ==> KeyOf(t.element, items[i])
    case _ => TextKey(p, v.str) == Some(v)
  }

  lemma OrderedIntRead(b: bytes, pos: nat, v: int, w: nat)
    requires w > 0 && InSigned(v, w) && At(b, pos, OrderedInt(v, w))
    ensures pos + w <= |b| && DecodeOrderedInt(b[pos..pos + w], w) == v
  {
    SignedRoundTrip(v, w);
    FlipTopInvolution(TwosComplement(v, w), w);
    FromBeOfBe(FlipTop(TwosComplement(v, w), w), w);
  }

  lemma TextKeyKind(t: DataType, s: text)
    ensures TextKey(t, s).Some? <==> TextKey(t, []).Some?
  {
  }

  /** Decoding an encoded key, with anything after it, gives the value back and its exact length. */
  lemma {:induction false} KeyRoundTrip(t: DataType, v: ColumnValue, x: bytes)
    requires KeyOf(t, v) && KeySized(v)
    ensures DecodeKey(t, EncodeKey(v) + x) == Ok((v, |EncodeKey(v)|))
    decreases v, 1
  {
    hide EncodeKey, DecodeKey, Body;
    var b := EncodeKey(v) + x;
    BodyAt(v, x);
    match v {
      case Null => ScalarKeyRoundTrip(t, v, b);
      case Boolean(_) => ScalarKeyRoundTrip(t, v, b);
      case Array(items) => ArrayKeyRoundTrip(t, items, b);
      case Bytea(s) => SegmentKeyRoundTrip(t, v, s, b);
      case Int16(_) => ScalarKeyRoundTrip(t, v, b);
      case Int32(_) => ScalarKeyRoundTrip(t, v, b);
      case Int64(_) => ScalarKeyRoundTrip(t, v, b);
      case Float32(_) => ScalarKeyRoundTrip(t, v, b);
      case Float64(_) => ScalarKeyRoundTrip(t, v, b);
      case _ => SegmentKeyRoundTrip(t, v, v.str, b);
    }
  }

  lemma SegmentKeyRoundTrip(t: DataType, v: ColumnValue, s: bytes, b: bytes)
    requires KeyOf(t, v) && KeySized(v)
    requires if v.Bytea? then s == v.raw else Tag(v) == 4 && s == v.str
    requires b != [] && b[0] == Tag(v) && At(b, 1, Body(v))
    ensures DecodeKey(t, b) == Ok((v, 1 + |Body(v)|))
  {
    hide DecodeScalarKey, ValidUtf8, At, ReadSegment, Be;
    ReadSegmentAt(b, 1, s);
    ReadSegmentKey(PlainType(t), v, s, b);
  }

  lemma ReadSegmentKey(p: DataType, v: ColumnValue, s: bytes, b: bytes)
    requires if v.Bytea? then s == v.raw && p == ByteaType else Tag(v) == 4 && s == v.str && TextKey(p, s) == Some(v)
    requires b != [] && b[0] == Tag(v) && ReadSegment(b, 1) == Read(s, 5 + |s|)
    ensures DecodeScalarKey(p, b) == Ok((v, 5 + |s|))
  {
    hide DecodeOrderedInt, FromOrdered32, FromOrdered64, FromBe, ReadSegment, TextKey, ValidUtf8;
    if Tag(v) == 4 {
      TextKeyKind(p, s);
    }
  }

  lemma BodyAt(v: ColumnValue, x: bytes)
    ensures var b := EncodeKey(v) + x;
      b != [] && b[0] == Tag(v) && At(b, 1, Body(v)) && |EncodeKey(v)| == 1 + |Body(v)|
  {
    hide EncodeKey;
    var b := EncodeKey(v) + x;
    assert b == [Tag(v)] + Body(v) + x;
    assert b[1..1 + |Body(v)|] == Body(v);
  }

  lemma ScalarKeyRoundTrip(t: DataType, v: ColumnValue, b: bytes)
    requires Tag(v) in {0, 1, 2, 3, 5, 6, 16} && KeyOf(t, v)
    requires b != [] && b[0] == Tag(v) && At(b, 1, Body(v))
    ensures DecodeKey(t, b) == Ok((v, 1 + |Body(v)|))
  {
    hide DecodeScalarKey, PlainType, Body, At, TextKey;
    if v.Float32? || v.Float64? {
      FloatArm(PlainType(t), v, b);
    } else {
      ScalarArm(PlainType(t), v, b);
    }
  }

  lemma ScalarArm(p: DataType, v: ColumnValue, b: bytes)
    requires v.Null? || (v.Boolean? && p == BooleanType) || (v.Int16? && p == Int16Type) || (v.Int32? && p == Int32Type) || (v.Int64? && p == Int64Type)
    requires b != [] && b[0] == Tag(v) && At(b, 1, Body(v))
    ensures DecodeScalarKey(p, b) == Ok((v, 1 + |Body(v)|))
  {
    hide OrderedInt, DecodeOrderedInt, Be, FromBe, ReadSegment, TextKey, ValidUtf8;
    Pow256Values();
    match v {
      case Null =>
      case Boolean(_) => assert b[1] == Body(v)[0];
      case Int16(a) => OrderedIntRead(b, 1, a, 2);
      case Int32(a) => OrderedIntRead(b, 1, a, 4);
      case Int64(a) => OrderedIntRead(b, 1, a, 8);
    }
  }

  lemma FloatArm(p: DataType, v: ColumnValue, b: bytes)
    requires (v.Float32? && p == Float32Type) || (v.Float64? && p == Float64Type)
    requires b != [] && b[0] == Tag(v) && At(b, 1, Body(v))
    ensures DecodeScalarKey(p, b) == Ok((v, 1 + |Body(v)|))
  {
    hide Be, FromBe, ReadSegment, TextKey, ValidUtf8, Ordered32, Ordered64, FromOrdered32, FromOrdered64, Value32, Value64;
    Pow256Values();
    if v.Float32? {
      FromBeOfBe(Ordered32(v.bits32), 4);
      Ordered32Embeds(v.bits32, v.bits32);
    } else {
      FromBeOfBe(Ordered64(v.bits64), 8);
      Ordered64Embeds(v.bits64, v.bits64);
    }
  }

  lemma ArrayKeyRoundTrip(t: DataType, items: seq<ColumnValue>, b: bytes)
    requires KeyOf(t, Array(items)) && KeySized(Array(items))
    requires b != [] && b[0] == 8 && At(b, 1, Body(Array(items)))
    ensures DecodeKey(t, b) == Ok((Array(items), 1 + |Body(Array(items))|))
    decreases items, 1
  {
    hide EncodeKey, Be, FromBe;
    Pow256Values();
    AtConcat(b, 1, Be(|items|, 4), EncodeKeyItems(items));
    ReadUnsignedAt(b, 1, |items|, 4);
    KeyItemsRoundTrip(t.element, items, b, 5);
  }

  lemma {:induction false} KeyItemsRoundTrip(t: DataType, items: seq<ColumnValue>, b: bytes, offset: nat)
    requires forall i :: 0 <= i < |items| ==> KeyOf(t, items[i]) && KeySized(items[i]) && |EncodeKey(items[i])| < 0x1_0000_0000
    requires At(b, offset, EncodeKeyItems(items))
    ensures DecodeKeyItems(t, b, offset, |items|) == Ok((items, offset + |EncodeKeyItems(items)|))
    decreases items, 0
  {
    hide EncodeKey, DecodeKey, KeyOf, KeySized, At, ReadSegment, Be;
    if items != [] {
      var encoded, next := EncodeKey(items[0]), offset + 4 + |EncodeKey(items[0])|;
      assert |PushSegment(encoded)| == 4 + |encoded|;
      hide PushSegment;
      AtConcat(b, offset, PushSegment(encoded), EncodeKeyItems(items[1..]));
      ReadSegmentAt(b, offset, encoded);
      KeyRoundTrip(t, items[0], []);
      assert encoded + [] == encoded;
      KeyItemsRoundTrip(t, items[1..], b, next);
      hide EncodeKeyItems, DecodeKeyItems;
      DecodeItemStep(t, b, offset, |items|, encoded, next, items[0], items[1..], next + |EncodeKeyItems(items[1..])|);
      ItemsLength(items);
    }
  }

  lemma DecodeItemStep(t: DataType, b: bytes, offset: nat, count: nat, encoded: bytes, next: nat, v: ColumnValue, vs: seq<ColumnValue>, end: nat)
    requires offset <= |b| && count > 0 && ReadSegment(b, offset) == Read(encoded, next) && DecodeKey(t, encoded) == Ok((v, |encoded|))
    requires next <= |b| && DecodeKeyItems(t, b, next, count - 1) == Ok((vs, end))
    ensures DecodeKeyItems(t, b, offset, count) == Ok(([v] + vs, end))
  {
    hide DecodeKey, ReadSegment;
  }

  lemma ItemsLength(items: seq<ColumnValue>)
    requires items != []
    ensures |EncodeKeyItems(items)| == 4 + |EncodeKey(items[0])| + |EncodeKeyItems(items[1..])|
    ensures items == [items[0]] + items[1..]
  {
    hide EncodeKey;
  }

  // ---------------------------------------------------------------------------------------------
  // The encoder and decoder as loops over a growing buffer and an advancing offset.

  /** `encode_key_value`. */
  method EncodeKeyValue(v: ColumnValue) returns (buf: bytes)
    ensures buf == EncodeKey(v)
    decreases v
  {
    if v.Array? {
      buf := [8] + Be(|v.items|, 4);
      var i := 0;
      assert v.items[0..] == v.items;
      while i < |v.items|
        invariant 0 <= i <= |v.items|
        invariant buf + EncodeKeyItems(v.items[i..]) == EncodeKey(v)
      {
        hide EncodeKey, Be;
        var encoded := EncodeKeyValue(v.items[i]);
        assert v.items[i..][1..] == v.items[i + 1..];
        assert buf + EncodeKeyItems(v.items[i..]) == buf + PushSegment(encoded) + EncodeKeyItems(v.items[i + 1..]);
        buf := buf + PushSegment(encoded);
        i := i + 1;
      }
      hide EncodeKey;
      assert buf + [] == buf;
    } else {
      buf := [Tag(v)] + Body(v);
    }
  }

  /** The items read so far, put before what the rest of the array reads as. */
  function After(items: seq<ColumnValue>, rest: Result<(seq<ColumnValue>, nat)>): Result<(seq<ColumnValue>, nat)> {
    match rest
    case Err => Err
    case Ok((vs, end)) => Ok((items + vs, end))
  }

  lemma AfterNothing(rest: Result<(seq<ColumnValue>, nat)>)
    ensures After([], rest) == rest
  {
    if rest.Ok? {
      assert [] + rest.value.0 == rest.value.0;
    }
  }

  /** The array arm of `decode_key_value`. */
  method DecodeArrayItems(element: DataType, b: bytes, start: nat, count: nat)
    returns (r: Result<(seq<ColumnValue>, nat)>)
    requires start <= |b|
    ensures r == DecodeKeyItems(element, b, start, count)
  {
    hide DecodeKey;
    var values: seq<ColumnValue>, offset: nat, i := [], start, 0;
    AfterNothing(DecodeKeyItems(element, b, start, count));
    while i < count
      invariant 0 <= i <= count && offset <= |b|
      invariant DecodeKeyItems(element, b, start, count) == After(values, DecodeKeyItems(element, b, offset, count - i))
    {
      var segment := ReadSegment(b, offset);
      if segment.Fail? {
        return Err;
      }
      var decoded := DecodeKey(element, segment.value);
      if decoded.Err? || decoded.value.1 != |segment.value| {
        return Err;
      }
      ghost var rest := DecodeKeyItems(element, b, segment.next, count - i - 1);
      if rest.Ok? {
        assert values + ([decoded.value.0] + rest.value.0) == values + [decoded.value.0] + rest.value.0;
      }
      values, offset, i := values + [decoded.value.0], segment.next, i + 1;
    }
    assert values + [] == values;
    r := Ok((values, offset));
  }
}
