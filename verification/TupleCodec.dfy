/** The tagged tuple encoding of column values, its decoders, and the widths of fixed columns. */
module TupleCodec {
  import opened Basics
  import opened Bytes
  import opened Floats
  import opened Values
  import opened Reader

  /** `FastNumericValue`. */
  datatype FastNumeric = NullSlot | I64(int64: i64) | F64(bits64: f64)

  // ---------------------------------------------------------------------------------------------
  // Encoding.

  function EncodeTuple(v: ColumnValue): (r: bytes)
    ensures r != []
    decreases v, 1
  {
    match v
    case Null => [0]
    case Boolean(x) => [1, if x then 1 else 0]
    case Int16(x) => [16] + Be(TwosComplement(x, 2), 2)
    case Int32(x) => [2] + Be(TwosComplement(x, 4), 4)
    case Int64(x) => [3] + Be(TwosComplement(x, 8), 8)
    case Text(s) => [4] + PushSegment(s)
    case Float32(x) => [5] + Be(x, 4)
    case Float64(x) => [6] + Be(x, 8)
    case Bytea(s) => [7] + PushSegment(s)
    case Array(items) => [8] + Be(|items|, 4) + EncodeTuples(items)
    case Numeric(s) => [9] + PushSegment(s)
    case Date(s) => [10] + PushSegment(s)
    case Timestamp(s) => [11] + PushSegment(s)
    case TimestampTz(s) => [12] + PushSegment(s)
    case Uuid(s) => [13] + PushSegment(s)
    case Json(s) => [14] + PushSegment(s)
    case Jsonb(s) => [15] + PushSegment(s)
  }

  function EncodeTuples(vs: seq<ColumnValue>): bytes
    decreases vs, 0
  {
    if vs == [] then [] else EncodeTuple(vs[0]) + EncodeTuples(vs[1..])
  }

  /** The bits of a signed integer, as a natural number. */
  function TwosComplement(v: int, w: nat): (u: nat)
    requires w > 0 && InSigned(v, w)
    ensures u == ToUnsigned(v, w) && u < Pow256(w)
  {
    SignedRoundTrip(v, w);
    ToUnsigned(v, w)
  }

  /** Every length inside the value fits the u32 it is written as. */
  predicate WellSized(v: ColumnValue) {
    match v
    case Bytea(s) => |s| < 0x1_0000_0000
    case Array(items) => |items| < 0x1_0000_0000 && forall i :: 0 <= i < |items| ==> WellSized(items[i])
    case _ => TextLength(v) < 0x1_0000_0000
  }

  function TextLength(v: ColumnValue): nat {
    match v
    case Numeric(s) => |s|
    case Text(s) => |s|
    case Date(s) => |s|
    case Timestamp(s) => |s|
    case TimestampTz(s) => |s|
    case Uuid(s) => |s|
    case Json(s) => |s|
    case Jsonb(s) => |s|
    case _ => 0
  }

  // ---------------------------------------------------------------------------------------------
  // Decoding.

  predicate TextTag(tag: byte) {
    tag == 4 || 9 <= tag <= 15
  }

  function TextValue(tag: byte, s: text): ColumnValue
    requires TextTag(tag)
  {
    if tag == 4 then Text(s)
    else if tag == 9 then Numeric(s)
    else if tag == 10 then Date(s)
    else if tag == 11 then Timestamp(s)
    else if tag == 12 then TimestampTz(s)
    else if tag == 13 then Uuid(s)
    else if tag == 14 then Json(s)
    else Jsonb(s)
  }

  /** Payloads of every tag but 8, the array. */
  function DecodeScalar(tag: byte, b: bytes, pos: nat): (r: Read<ColumnValue>)
    requires pos <= |b|
    ensures r.Read? ==> pos <= r.next <= |b|
  {
    Pow256Values();
    if tag == 0 then Read(Null, pos)
    else if tag == 1 then
      match ReadUnsigned(b, pos, 1) case Fail => Fail case Read(n, next) => Read(Boolean(n != 0), next)
    else if tag == 16 then
      match ReadSigned(b, pos, 2) case Fail => Fail case Read(n, next) => Read(Int16(n), next)
    else if tag == 2 then
      match ReadSigned(b, pos, 4) case Fail => Fail case Read(n, next) => Read(Int32(n), next)
    else if tag == 3 then
      match ReadSigned(b, pos, 8) case Fail => Fail case Read(n, next) => Read(Int64(n), next)
    else if tag == 5 then
      match ReadUnsigned(b, pos, 4) case Fail => Fail case Read(n, next) => Read(Float32(n), next)
    else if tag == 6 then
      match ReadUnsigned(b, pos, 8) case Fail => Fail case Read(n, next) => Read(Float64(n), next)
    else if tag == 7 then
      match ReadSegment(b, pos) case Fail => Fail case Read(s, next) => Read(Bytea(s), next)
    else if TextTag(tag) then
      match ReadSegment(b, pos)
      case Fail => Fail
      case Read(s, next) => if ValidUtf8(s) then Read(TextValue(tag, s), next) else Fail
    else Fail
  }

  function DecodeTuple(b: bytes, pos: nat): (r: Read<ColumnValue>)
    requires pos <= |b|
    ensures r.Read? ==> pos < r.next <= |b|
    decreases |b| - pos, 0, 0
  {
    if pos == |b| then Fail
    else if b[pos] == 8 then
      match ReadUnsigned(b, pos + 1, 4)
      case Fail => Fail
      case Read(count, next) =>
        match DecodeTuples(b, next, count)
        case Fail => Fail
        case Read(items, end) => Read(Array(items), end)
    else DecodeScalar(b[pos], b, pos + 1)
  }

  /** `count` values, one after the other. */
  function DecodeTuples(b: bytes, pos: nat, count: nat): (r: Read<seq<ColumnValue>>)
    requires pos <= |b|
    ensures r.Read? ==> pos <= r.next <= |b| && |r.value| == count
    decreases |b| - pos, 1, count
  {
    if count == 0 then Read([], pos)
    else
      match DecodeTuple(b, pos)
      case Fail => Fail
      case Read(v, next) =>
        match DecodeTuples(b, next, count - 1)
        case Fail => Fail
        case Read(vs, end) => Read([v] + vs, end)
  }

  /** `skip_tuple_value`: moves past a value without building it (and without looking at its text). */
  function SkipTuple(b: bytes, pos: nat): (r: Read<()>)
    requires pos <= |b|
    ensures r.Read? ==> pos < r.next <= |b|
    decreases |b| - pos, 0, 0
  {
    if pos == |b| then Fail
    else
      var tag := b[pos];
      if tag == 0 then Read((), pos + 1)
      else if tag == 1 then Skip(b, pos + 1, 1)
      else if tag == 16 then Skip(b, pos + 1, 2)
      else if tag == 2 || tag == 5 then Skip(b, pos + 1, 4)
      else if tag == 3 || tag == 6 then Skip(b, pos + 1, 8)
      else if tag == 7 || TextTag(tag) then
        match ReadSegment(b, pos + 1) case Fail => Fail case Read(_, next) => Read((), next)
      else if tag == 8 then
        match ReadUnsigned(b, pos + 1, 4)
        case Fail => Fail
        case Read(count, next) => SkipTuples(b, next, count)
      else Fail
  }

  function SkipTuples(b: bytes, pos: nat, count: nat): (r: Read<()>)
    requires pos <= |b|
    ensures r.Read? ==> pos <= r.next <= |b|
    decreases |b| - pos, 1, count
  {
    if count == 0 then Read((), pos)
    else
      match SkipTuple(b, pos)
      case Fail => Fail
      case Read(_, next) => SkipTuples(b, next, count - 1)
  }

  /** `decode_tuple_numeric_value`. */
  function DecodeNumeric(b: bytes, pos: nat): (r: Read<FastNumeric>)
    requires pos <= |b|
    ensures r.Read? ==> pos < r.next <= |b|
  {
    Pow256Values();
    if pos == |b| then Fail
    else
      var tag := b[pos];
      if tag == 0 then Read(NullSlot, pos + 1)
      else if tag == 16 then
        match ReadSigned(b, pos + 1, 2) case Fail => Fail case Read(n, next) => Read(I64(n), next)
      else if tag == 2 then
        match ReadSigned(b, pos + 1, 4) case Fail => Fail case Read(n, next) => Read(I64(n), next)
      else if tag == 3 then
        match ReadSigned(b, pos + 1, 8) case Fail => Fail case Read(n, next) => Read(I64(n), next)
      else if tag == 5 then
        match ReadUnsigned(b, pos + 1, 4) case Fail => Fail case Read(n, next) => Read(F64(Widen(n)), next)
      else if tag == 6 then
        match ReadUnsigned(b, pos + 1, 8) case Fail => Fail case Read(n, next) => Read(F64(n), next)
      else Fail
  }

  /** `column_value_to_fast_numeric` of the aggregate path: the numeric view of a value, if it has one. */
  function NumericView(v: ColumnValue): Option<FastNumeric> {
    match v
    case Null => Some(NullSlot)
    case Int16(x) => Some(I64(x))
    case Int32(x) => Some(I64(x))
    case Int64(x) => Some(I64(x))
    case Float32(x) => Some(F64(Widen(x)))
    case Float64(x) => Some(F64(x))
    case _ => None
  }

  // ---------------------------------------------------------------------------------------------
  // What the decoders have to do with the encoder and with each other.

  lemma {:induction false} TupleRoundTrip(v: ColumnValue, b: bytes, pos: nat)
    requires WellSized(v) && At(b, pos, EncodeTuple(v))
    ensures DecodeTuple(b, pos) == Read(v, pos + |EncodeTuple(v)|)
    decreases v, 1
  {
    match v {
      case Null => TagAt(b, pos, 0, []);
      case Boolean(x) =>
        var n := if x then 1 else 0;
        assert [n] == Be(n, 1) by { assert Be(n, 1) == Be(n / 256, 0) + [n % 256]; }
        UnsignedAt(b, pos, 1, n, 1);
      case Int16(x) => SignedAt(b, pos, 16, x, 2);
      case Int32(x) => SignedAt(b, pos, 2, x, 4);
      case Int64(x) => SignedAt(b, pos, 3, x, 8);
      case Float32(x) => UnsignedAt(b, pos, 5, x, 4);
      case Float64(x) => UnsignedAt(b, pos, 6, x, 8);
      case Array(items) => ArrayAt(items, b, pos);
      case Bytea(s) => TagAt(b, pos, 7, PushSegment(s)); ReadSegmentAt(b, pos + 1, s);
      case Text(s) => TextAt(b, pos, 4, s);
      case Numeric(s) => TextAt(b, pos, 9, s);
      case Date(s) => TextAt(b, pos, 10, s);
      case Timestamp(s) => TextAt(b, pos, 11, s);
      case TimestampTz(s) => TextAt(b, pos, 12, s);
      case Uuid(s) => TextAt(b, pos, 13, s);
      case Json(s) => TextAt(b, pos, 14, s);
      case Jsonb(s) => TextAt(b, pos, 15, s);
    }
  }

  lemma ArrayAt(items: seq<ColumnValue>, b: bytes, pos: nat)
    requires |items| < 0x1_0000_0000 && forall i :: 0 <= i < |items| ==> WellSized(items[i])
    requires At(b, pos, EncodeTuple(Array(items)))
    ensures DecodeTuple(b, pos) == Read(Array(items), pos + |EncodeTuple(Array(items))|)
    decreases items, 1
  {
    Pow256Values();
    assert EncodeTuple(Array(items)) == [8] + (Be(|items|, 4) + EncodeTuples(items));
    TagAt(b, pos, 8, Be(|items|, 4) + EncodeTuples(items));
    AtConcat(b, pos + 1, Be(|items|, 4), EncodeTuples(items));
    ReadUnsignedAt(b, pos + 1, |items|, 4);
    TuplesRoundTrip(items, b, pos + 5);
  }

  lemma TagAt(b: bytes, pos: nat, tag: byte, payload: bytes)
    requires At(b, pos, [tag] + payload)
    ensures pos < |b| && b[pos] == tag && At(b, pos + 1, payload)
  {
    AtConcat(b, pos, [tag], payload);
    assert b[pos..pos + 1][0] == b[pos];
  }

  lemma SignedAt(b: bytes, pos: nat, tag: byte, v: int, w: nat)
    requires w > 0 && InSigned(v, w) && At(b, pos, [tag] + Be(TwosComplement(v, w), w))
    ensures pos < |b| && b[pos] == tag && ReadSigned(b, pos + 1, w) == Read(v, pos + 1 + w)
  {
    TagAt(b, pos, tag, Be(TwosComplement(v, w), w));
    ReadSignedAt(b, pos + 1, v, w);
  }

  lemma UnsignedAt(b: bytes, pos: nat, tag: byte, n: nat, w: nat)
    requires At(b, pos, [tag] + Be(n, w)) && (w == 1 || w == 4 || w == 8)
    requires n < if w == 1 then 0x100 else if w == 4 then 0x1_0000_0000 else 0x1_0000_0000_0000_0000
    ensures pos < |b| && b[pos] == tag && ReadUnsigned(b, pos + 1, w) == Read(n, pos + 1 + w)
  {
    Pow256Values();
    TagAt(b, pos, tag, Be(n, w));
    ReadUnsignedAt(b, pos + 1, n, w);
  }

  lemma TextAt(b: bytes, pos: nat, tag: byte, s: text)
    requires TextTag(tag) && |s| < 0x1_0000_0000 && At(b, pos, [tag] + PushSegment(s))
    ensures DecodeTuple(b, pos) == Read(TextValue(tag, s), pos + 5 + |s|)
  {
    TagAt(b, pos, tag, PushSegment(s));
    ReadSegmentAt(b, pos + 1, s);
  }

  lemma {:induction false} TuplesRoundTrip(vs: seq<ColumnValue>, b: bytes, pos: nat)
    requires forall i :: 0 <= i < |vs| ==> WellSized(vs[i])
    requires At(b, pos, EncodeTuples(vs))
    ensures DecodeTuples(b, pos, |vs|) == Read(vs, pos + |EncodeTuples(vs)|)
    decreases vs, 0
  {
    if vs != [] {
      AtConcat(b, pos, EncodeTuple(vs[0]), EncodeTuples(vs[1..]));
      TupleRoundTrip(vs[0], b, pos);
      TuplesRoundTrip(vs[1..], b, pos + |EncodeTuple(vs[0])|);
      assert vs == [vs[0]] + vs[1..];
    }
  }

  /** Skipping stops where every successful decode stops, nested arrays included. */
  lemma {:induction false} SkipAgrees(b: bytes, pos: nat)
    requires pos <= |b| && DecodeTuple(b, pos).Read?
    ensures SkipTuple(b, pos) == Read((), DecodeTuple(b, pos).next)
    decreases |b| - pos, 0, 0
  {
    if b[pos] == 8 {
      var count := ReadUnsigned(b, pos + 1, 4);
      SkipManyAgrees(b, count.next, count.value);
    }
  }

  lemma {:induction false} SkipManyAgrees(b: bytes, pos: nat, count: nat)
    requires pos <= |b| && DecodeTuples(b, pos, count).Read?
    ensures SkipTuples(b, pos, count) == Read((), DecodeTuples(b, pos, count).next)
    decreases |b| - pos, 1, count
  {
    if count > 0 {
      SkipAgrees(b, pos);
      SkipManyAgrees(b, DecodeTuple(b, pos).next, count - 1);
    }
  }

  /** On a value that has a numeric view, the numeric decoder gives that view and stops at the same place. */
  lemma NumericAgrees(b: bytes, pos: nat)
    requires pos <= |b| && DecodeTuple(b, pos).Read?
    ensures var r := DecodeTuple(b, pos);
      DecodeNumeric(b, pos) ==
        if NumericView(r.value).Some? then Read(NumericView(r.value).value, r.next) else Fail
  {
  }

  // ---------------------------------------------------------------------------------------------
  // The decoders as the source runs them.

  method DecodeTupleValue(c: Cursor) returns (r: Result<ColumnValue>)
    requires c.Valid()
    modifies c
    ensures c.Valid() && Performed(DecodeTuple(c.data, old(c.pos)), c.pos, r)
    decreases |c.data| - c.pos
  {
    ghost var start := c.pos;
    var tag := c.Unsigned(1);
    if tag.Err? {
      return Err;
    }
    assert tag.value == c.data[start] by { assert FromBe([]) == 0; }
    if tag.value != 8 {
      var scalar := DecodeScalar(tag.value, c.data, c.pos);
      if scalar.Fail? {
        return Err;
      }
      c.pos := scalar.next;
      return Ok(scalar.value);
    }
    var count := c.Unsigned(4);
    if count.Err? {
      return Err;
    }
    ghost var first := c.pos;
    var values: seq<ColumnValue> := [];
    var i := 0;
    PrependOne([], Null, DecodeTuples(c.data, first, count.value));
    while i < count.value
      invariant c.Valid() && i <= count.value && |values| == i && start < first <= c.pos
      invariant DecodeTuples(c.data, first, count.value)
        == PrependValues(values, DecodeTuples(c.data, c.pos, count.value - i))
    {
      ghost var at := c.pos;
      var value := DecodeTupleValue(c);
      if value.Err? {
        return Err;
      }
      PrependOne(values, value.value, DecodeTuples(c.data, c.pos, count.value - i - 1));
      values := values + [value.value];
      i := i + 1;
    }
    assert values + [] == values;
    r := Ok(Array(values));
  }

  ghost function PrependValues(values: seq<ColumnValue>, rest: Read<seq<ColumnValue>>): Read<seq<ColumnValue>> {
    match rest
    case Fail => Fail
    case Read(vs, next) => Read(values + vs, next)
  }

  lemma PrependOne(values: seq<ColumnValue>, v: ColumnValue, rest: Read<seq<ColumnValue>>)
    ensures PrependValues(values + [v], rest) == PrependValues(values, PrependValues([v], rest))
    ensures PrependValues([], rest) == rest
  {
    if rest.Read? {
      assert values + ([v] + rest.value) == values + [v] + rest.value;
      assert [] + rest.value == rest.value;
    }
  }

  method SkipTupleValue(c: Cursor) returns (r: Result<()>)
    requires c.Valid()
    modifies c
    ensures c.Valid() && Performed(SkipTuple(c.data, old(c.pos)), c.pos, r)
    decreases |c.data| - c.pos
  {
    ghost var start := c.pos;
    var tag := c.Unsigned(1);
    if tag.Err? {
      return Err;
    }
    assert tag.value == c.data[start] by { assert FromBe([]) == 0; }
    if tag.value == 0 {
      r := Ok(());
    } else if tag.value == 1 {
      r := c.SkipBytes(1);
    } else if tag.value == 16 {
      r := c.SkipBytes(2);
    } else if tag.value == 2 || tag.value == 5 {
      r := c.SkipBytes(4);
    } else if tag.value == 3 || tag.value == 6 {
      r := c.SkipBytes(8);
    } else if tag.value == 7 || TextTag(tag.value) {
      var segment := c.BytesSegment();
      r := if segment.Ok? then Ok(()) else Err;
    } else if tag.value == 8 {
      var count := c.Unsigned(4);
      if count.Err? {
        return Err;
      }
      ghost var first := c.pos;
      var i := 0;
      while i < count.value
        invariant c.Valid() && i <= count.value && start < first <= c.pos
        invariant SkipTuples(c.data, first, count.value) == SkipTuples(c.data, c.pos, count.value - i)
      {
        var one := SkipTupleValue(c);
        if one.Err? {
          return Err;
        }
        i := i + 1;
      }
      r := Ok(());
    } else {
      r := Err;
    }
  }
}
