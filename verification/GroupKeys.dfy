/** Group keys: sequences of values turned into bytes, so that equal bytes mean equal groups. */
module GroupKeys {
  import opened Basics
  import opened Bytes
  import opened Values
  import opened Reader
  import opened TupleCodec
  import opened KeyCodec

  function GroupTag(v: ColumnValue): byte {
    match v
    case Null => 0
    case Int16(_) => 10
    case Int32(_) => 1
    case Int64(_) => 2
    case Float32(_) => 3
    case Float64(_) => 4
    case Numeric(_) => 5
    case Boolean(_) => 7
    case Bytea(_) => 8
    case Array(_) => 9
    case _ => 6
  }

  function GroupBody(v: ColumnValue): bytes
    decreases v, 0
  {
    match v
    case Null => []
    case Int16(x) => Be(TwosComplement(x, 2), 2)
    case Int32(x) => Be(TwosComplement(x, 4), 4)
    case Int64(x) => Be(TwosComplement(x, 8), 8)
    case Float32(x) => Be(x, 4)
    case Float64(x) => Be(x, 8)
    case Boolean(x) => [if x then 1 else 0]
    case Bytea(s) => PushSegment(s)
    case Array(items) => PushSegment(TypedGroupKey(items))
    case _ => PushSegment(v.str)
  }

  /** `typed_group_key`. */
  function TypedGroupKey(values: seq<ColumnValue>): bytes
    decreases values, 1
  {
    if values == [] then [] else [GroupTag(values[0])] + GroupBody(values[0]) + TypedGroupKey(values[1..])
  }

  /** Every length inside the key fits the u32 it is written as. */
  predicate GroupSized(v: ColumnValue) {
    match v
    case Bytea(s) => |s| < 0x1_0000_0000
    case Array(items) => |TypedGroupKey(items)| < 0x1_0000_0000 && forall i :: 0 <= i < |items| ==> GroupSized(items[i])
    case _ => TextLength(v) < 0x1_0000_0000
  }

  predicate AllSized(values: seq<ColumnValue>) {
    forall i :: 0 <= i < |values| ==> GroupSized(values[i])
  }

  /** What a group key remembers: strings other than NUMERIC lose their kind. */
  function Kindless(v: ColumnValue): ColumnValue
    decreases v, 0
  {
    match v
    case Date(s) => Text(s)
    case Timestamp(s) => Text(s)
    case TimestampTz(s) => Text(s)
    case Uuid(s) => Text(s)
    case Json(s) => Text(s)
    case Jsonb(s) => Text(s)
    case Array(items) => Array(KindlessAll(items))
    case _ => v
  }

  function KindlessAll(values: seq<ColumnValue>): (r: seq<ColumnValue>)
    ensures |r| == |values|
    decreases values, 1
  {
    if values == [] then [] else [Kindless(values[0])] + KindlessAll(values[1..])
  }

  // ---------------------------------------------------------------------------------------------
  // Unique decodability.

  lemma SignedBytesEqual(a: int, b: int, w: nat)
    requires w > 0 && InSigned(a, w) && InSigned(b, w) && Be(TwosComplement(a, w), w) == Be(TwosComplement(b, w), w)
    ensures a == b
  {
    SignedRoundTrip(a, w);
    SignedRoundTrip(b, w);
    BeNumberOrder(TwosComplement(a, w), TwosComplement(b, w), w);
  }

  lemma FixedGroupBodyEqual(v: ColumnValue, x: bytes, w: ColumnValue, y: bytes)
    requires GroupTag(v) == GroupTag(w) && GroupTag(v) in {0, 1, 2, 3, 4, 7, 10}
    requires GroupBody(v) + x == GroupBody(w) + y
    ensures v == w && x == y
  {
    hide Be, TwosComplement;
    SplitEqual(GroupBody(v), x, GroupBody(w), y);
    Pow256Values();
    match v {
      case Null =>
      case Boolean(_) =>
      case Int16(a) => SignedBytesEqual(a, w.short, 2);
      case Int32(a) => SignedBytesEqual(a, w.int32, 4);
      case Int64(a) => SignedBytesEqual(a, w.int64, 8);
      case Float32(a) => BeNumberOrder(a, w.bits32, 4);
      case Float64(a) => BeNumberOrder(a, w.bits64, 8);
    }
  }

  lemma {:induction false} GroupBodyEqual(v: ColumnValue, x: bytes, w: ColumnValue, y: bytes)
    requires GroupSized(v) && GroupSized(w) && GroupTag(v) == GroupTag(w) && GroupBody(v) + x == GroupBody(w) + y
    ensures Kindless(v) == Kindless(w) && x == y
    decreases v, 0
  {
    hide Be, TwosComplement, PushSegment, TypedGroupKey, ValidUtf8;
    if GroupTag(v) in {0, 1, 2, 3, 4, 7, 10} {
      FixedGroupBodyEqual(v, x, w, y);
    } else if v.Array? {
      SegmentsEqual(TypedGroupKey(v.items), x, TypedGroupKey(w.items), y);
      GroupKeyUnique(v.items, w.items);
    } else if v.Bytea? {
      SegmentsEqual(v.raw, x, w.raw, y);
    } else {
      SegmentsEqual(v.str, x, w.str, y);
    }
  }

  lemma {:induction false} GroupKeyUnique(v: seq<ColumnValue>, w: seq<ColumnValue>)
    requires AllSized(v) && AllSized(w) && TypedGroupKey(v) == TypedGroupKey(w)
    ensures KindlessAll(v) == KindlessAll(w)
    decreases v, 1
  {
    hide GroupBody, GroupSized, Kindless;
    if v == [] || w == [] {
      assert v == w == [];
    } else {
      TaggedEqual(GroupTag(v[0]), GroupBody(v[0]), TypedGroupKey(v[1..]), GroupTag(w[0]), GroupBody(w[0]), TypedGroupKey(w[1..]));
      GroupBodyEqual(v[0], TypedGroupKey(v[1..]), w[0], TypedGroupKey(w[1..]));
      GroupKeyUnique(v[1..], w[1..]);
    }
  }

  lemma {:induction false} GroupKeyOfKindless(v: seq<ColumnValue>)
    ensures TypedGroupKey(KindlessAll(v)) == TypedGroupKey(v)
    decreases v, 1
  {
    hide GroupBody, Kindless;
    if v != [] {
      GroupBodyOfKindless(v[0]);
      GroupKeyOfKindless(v[1..]);
      assert KindlessAll(v)[1..] == KindlessAll(v[1..]);
    }
  }

  lemma {:induction false} GroupBodyOfKindless(v: ColumnValue)
    ensures GroupBody(Kindless(v)) == GroupBody(v) && GroupTag(Kindless(v)) == GroupTag(v)
    decreases v, 0
  {
    hide Be, TypedGroupKey, ValidUtf8;
    if v.Array? {
      GroupKeyOfKindless(v.items);
    }
  }

  /** Two value sequences, of whatever lengths, fall into one group exactly when they are equal up to string kind. */
  lemma GroupKeyFaithful(v: seq<ColumnValue>, w: seq<ColumnValue>)
    requires AllSized(v) && AllSized(w)
    ensures TypedGroupKey(v) == TypedGroupKey(w) <==> KindlessAll(v) == KindlessAll(w)
  {
    if TypedGroupKey(v) == TypedGroupKey(w) {
      GroupKeyUnique(v, w);
    }
    GroupKeyOfKindless(v);
    GroupKeyOfKindless(w);
  }

  // ---------------------------------------------------------------------------------------------
  // The fast key.

  datatype FastKey = SingleNull | SingleI64(i: i64) | SingleF64(bits: Floats.f64) | Composite(key: bytes)

  function SlotTag(x: FastNumeric): byte {
    match x
    case NullSlot => 0
    case I64(_) => 1
    case F64(_) => 2
  }

  function SlotBody(x: FastNumeric): bytes {
    match x
    case NullSlot => []
    case I64(i) => Be(TwosComplement(i, 8), 8)
    case F64(b) => Be(b, 8)
  }

  function CompositeKey(slots: seq<FastNumeric>): bytes {
    if slots == [] then [] else [SlotTag(slots[0])] + SlotBody(slots[0]) + CompositeKey(slots[1..])
  }

  /** `fast_numeric_group_key`, on the values of the group slots. */
  function FastGroupKey(slots: seq<FastNumeric>): FastKey {
    if |slots| == 1 then
      match slots[0]
      case NullSlot => SingleNull
      case I64(i) => SingleI64(i)
      case F64(b) => SingleF64(b)
    else Composite(CompositeKey(slots))
  }

  lemma SlotBodyEqual(a: FastNumeric, x: bytes, b: FastNumeric, y: bytes)
    requires SlotTag(a) == SlotTag(b) && SlotBody(a) + x == SlotBody(b) + y
    ensures a == b && x == y
  {
    hide Be, TwosComplement;
    SplitEqual(SlotBody(a), x, SlotBody(b), y);
    Pow256Values();
    if a.I64? { SignedBytesEqual(a.int64, b.int64, 8); }
    if a.F64? { BeNumberOrder(a.bits64, b.bits64, 8); }
  }

  lemma {:induction false} CompositeKeyInjective(a: seq<FastNumeric>, b: seq<FastNumeric>)
    requires CompositeKey(a) == CompositeKey(b)
    ensures a == b
  {
    hide SlotBody;
    if a == [] || b == [] {
      assert a == b == [];
    } else {
      TaggedEqual(SlotTag(a[0]), SlotBody(a[0]), CompositeKey(a[1..]), SlotTag(b[0]), SlotBody(b[0]), CompositeKey(b[1..]));
      SlotBodyEqual(a[0], CompositeKey(a[1..]), b[0], CompositeKey(b[1..]));
      CompositeKeyInjective(a[1..], b[1..]);
      assert a == [a[0]] + a[1..] && b == [b[0]] + b[1..];
    }
  }

  /** Slot tuples have one fast key exactly when they are the same, single or composite. */
  lemma FastGroupKeyFaithful(a: seq<FastNumeric>, b: seq<FastNumeric>)
    ensures FastGroupKey(a) == FastGroupKey(b) <==> a == b
  {
    hide CompositeKey;
    if FastGroupKey(a) == FastGroupKey(b) && |a| != 1 {
      CompositeKeyInjective(a, b);
    }
  }

  // ---------------------------------------------------------------------------------------------
  // The keys as growing buffers.

  lemma TypedGroupKeyAt(values: seq<ColumnValue>, i: nat)
    requires i < |values|
    ensures TypedGroupKey(values[i..]) == [GroupTag(values[i])] + GroupBody(values[i]) + TypedGroupKey(values[i + 1..])
  {
    hide GroupBody;
    assert values[i..][1..] == values[i + 1..];
  }

  method BuildGroupBody(v: ColumnValue) returns (body: bytes)
    ensures body == GroupBody(v)
    decreases v, 0
  {
    hide Be, TwosComplement;
    if v.Array? {
      var nested := BuildTypedGroupKey(v.items);
      body := Be(|nested|, 4) + nested;
    } else {
      body := GroupBody(v);
    }
  }

  lemma CompositeKeyAt(slots: seq<FastNumeric>, g: nat)
    requires g < |slots|
    ensures CompositeKey(slots[g..]) == [SlotTag(slots[g])] + SlotBody(slots[g]) + CompositeKey(slots[g + 1..])
  {
    hide SlotBody;
    assert slots[g..][1..] == slots[g + 1..];
  }

  method BuildTypedGroupKey(values: seq<ColumnValue>) returns (out: bytes)
    ensures out == TypedGroupKey(values)
    decreases values, 1
  {
    out := [];
    var i := 0;
    assert values[0..] == values;
    while i < |values|
      invariant 0 <= i <= |values|
      invariant out + TypedGroupKey(values[i..]) == TypedGroupKey(values)
    {
      hide TypedGroupKey, GroupBody;
      var v := values[i];
      var body := BuildGroupBody(v);
      TypedGroupKeyAt(values, i);
      assert out + TypedGroupKey(values[i..]) == out + [GroupTag(v)] + body + TypedGroupKey(values[i + 1..]);
      out := out + [GroupTag(v)] + body;
      i := i + 1;
    }
    assert out + [] == out;
  }

  /** A slot past the end of the values reads as NULL. */
  function SlotAt(values: seq<FastNumeric>, slot: nat): FastNumeric {
    if slot < |values| then values[slot] else NullSlot
  }

  /** `fast_numeric_group_values`. */
  function SlotsAt(values: seq<FastNumeric>, slots: seq<nat>): (r: seq<FastNumeric>)
    ensures |r| == |slots|
  {
    seq(|slots|, g requires 0 <= g < |slots| => SlotAt(values, slots[g]))
  }

  method BuildCompositeKey(values: seq<FastNumeric>, groupSlots: seq<nat>) returns (out: bytes)
    ensures out == CompositeKey(SlotsAt(values, groupSlots))
  {
    hide SlotBody, SlotTag;
    ghost var slots := SlotsAt(values, groupSlots);
    out := [];
    var g := 0;
    assert slots[0..] == slots;
    while g < |groupSlots|
      invariant 0 <= g <= |groupSlots|
      invariant out + CompositeKey(slots[g..]) == CompositeKey(slots)
    {
      hide CompositeKey;
      var x := SlotAt(values, groupSlots[g]);
      CompositeKeyAt(slots, g);
      assert out + CompositeKey(slots[g..]) == out + [SlotTag(x)] + SlotBody(x) + CompositeKey(slots[g + 1..]);
      out := out + [SlotTag(x)] + SlotBody(x);
      g := g + 1;
    }
    assert out + [] == out;
  }

  method BuildFastGroupKey(values: seq<FastNumeric>, groupSlots: seq<nat>) returns (key: FastKey)
    ensures key == FastGroupKey(SlotsAt(values, groupSlots))
  {
    hide CompositeKey;
    if |groupSlots| == 1 {
      match SlotAt(values, groupSlots[0]) {
        case NullSlot => return SingleNull;
        case I64(i) => return SingleI64(i);
        case F64(b) => return SingleF64(b);
      }
    }
    var out := BuildCompositeKey(values, groupSlots);
    key := Composite(out);
  }
}
