/** Keys of rows, row versions and index entries, and the byte ranges that scans run over. */
module Keys {
  import opened Basics
  import opened Bytes
  import opened Values
  import opened KeyCodec

  const VERSION: byte := 2
  const ROW_PREFIX: byte := 114  // 'r'
  const ROW_VERSION_PREFIX: byte := 118  // 'v'
  const INDEX_PREFIX: byte := 105  // 'i'
  const DESC_VERSION_MAX: u64 := 0xFFFF_FFFF_FFFF_FFFF

  /** A scan from `start`, inclusive, to `end`, exclusive; without an end it runs to the last key. */
  datatype RangeScan = RangeScan(start: bytes, end: Option<bytes>)

  predicate InRange(k: bytes, r: RangeScan) {
    Le(r.start, k) && (r.end.Some? ==> Lt(k, r.end.value))
  }

  // ---------------------------------------------------------------------------------------------
  // The end of a prefix.

  /** The least byte string above every string that starts with `p`, if there is one. */
  function NextPrefix(p: bytes): (r: Option<bytes>)
    decreases |p|
  {
    if p == [] then None
    else
      match NextPrefix(p[1..])
      case Some(t) => Some([p[0]] + t)
      case None => if p[0] < 255 then Some([p[0] + 1]) else None
  }

  /** The range from `p` to its next prefix holds exactly the keys that start with `p`. */
  lemma {:induction false} PrefixRangeExact(p: bytes, k: bytes)
    ensures InRange(k, RangeScan(p, NextPrefix(p))) <==> StartsWith(k, p)
    decreases |p|
  {
    if p != [] && k != [] {
      PrefixRangeExact(p[1..], k[1..]);
      StartsWithStep(p, k);
      var t := NextPrefix(p[1..]);
      if t.Some? {
        assert ([p[0]] + t.value)[1..] == t.value;
      } else if p[0] < 255 {
        assert [p[0] + 1][1..] == [] && !Lt(k[1..], []);
      }
    }
  }

  lemma StartsWithStep(p: bytes, k: bytes)
    requires p != [] && k != []
    ensures StartsWith(k, p) <==> k[0] == p[0] && StartsWith(k[1..], p[1..])
  {
    if |p| <= |k| {
      assert k[..|p|] == [k[0]] + k[1..][..|p| - 1];
      assert p == [p[0]] + p[1..];
    }
  }

  lemma {:induction false} NextPrefixOfConcat(a: bytes, b: bytes)
    requires NextPrefix(b).Some?
    ensures NextPrefix(a + b) == Some(a + NextPrefix(b).value)
    decreases |a|
  {
    if a == [] {
      assert a + b == b && a + NextPrefix(b).value == NextPrefix(b).value;
    } else {
      assert (a + b)[1..] == a[1..] + b;
      NextPrefixOfConcat(a[1..], b);
      assert [a[0]] + (a[1..] + NextPrefix(b).value) == a + NextPrefix(b).value;
    }
  }

  /** `next_prefix`: increment the last byte that is not 255 and cut after it. */
  method IncrementPrefix(prefix: bytes) returns (r: Option<bytes>)
    ensures r == NextPrefix(prefix)
  {
    var upper := prefix;
    var idx := |upper|;
    while idx > 0
      invariant 0 <= idx <= |prefix| && upper == prefix
      invariant NextPrefix(prefix[idx..]) == None
    {
      idx := idx - 1;
      assert prefix[idx..][1..] == prefix[idx + 1..];
      if upper[idx] != 255 {
        NextPrefixOfConcat(prefix[..idx], prefix[idx..]);
        assert prefix[..idx] + prefix[idx..] == prefix;
        upper := upper[idx := upper[idx] + 1];
        upper := upper[..idx + 1];
        assert upper == prefix[..idx] + [prefix[idx] + 1];
        return Some(upper);
      }
    }
    assert prefix[0..] == prefix;
    r := None;
  }

  // ---------------------------------------------------------------------------------------------
  // Keys.

  function TablePrefix(family: byte, tableId: u32, tableEpoch: u64): (r: bytes)
    ensures |r| == 14
  {
    [VERSION, family] + Be(tableId, 4) + Be(tableEpoch, 8)
  }

  function RowPrefix(tableId: u32, tableEpoch: u64): bytes {
    TablePrefix(ROW_PREFIX, tableId, tableEpoch)
  }

  function RowKey(tableId: u32, tableEpoch: u64, pk: ColumnValue): bytes {
    RowPrefix(tableId, tableEpoch) + EncodeKey(pk)
  }

  function RowVersionPrefix(tableId: u32, tableEpoch: u64, pk: ColumnValue): bytes {
    TablePrefix(ROW_VERSION_PREFIX, tableId, tableEpoch) + EncodeKey(pk)
  }

  function RowVersionKey(tableId: u32, tableEpoch: u64, pk: ColumnValue, version: u64): bytes {
    RowVersionPrefix(tableId, tableEpoch, pk) + Be(DESC_VERSION_MAX - version, 8)
  }

  function IndexAllPrefix(indexId: u32): (r: bytes)
    ensures |r| == 6
  {
    [VERSION, INDEX_PREFIX] + Be(indexId, 4)
  }

  function IndexPrefix(indexId: u32, value: ColumnValue): bytes {
    IndexAllPrefix(indexId) + EncodeKey(value)
  }

  function IndexEntryKey(indexId: u32, value: ColumnValue, pk: ColumnValue): bytes {
    IndexPrefix(indexId, value) + EncodeKey(pk)
  }

  function PrefixScan(p: bytes): RangeScan {
    RangeScan(p, NextPrefix(p))
  }

  function RowVersionRange(tableId: u32, tableEpoch: u64, pk: ColumnValue): RangeScan {
    PrefixScan(RowVersionPrefix(tableId, tableEpoch, pk))
  }

  function RowRange(tableId: u32, tableEpoch: u64): RangeScan {
    PrefixScan(RowPrefix(tableId, tableEpoch))
  }

  /** A bound on primary keys: a value and whether the value itself is allowed. */
  type KeyBound = Option<(ColumnValue, bool)>

  function RowRangeBetween(tableId: u32, tableEpoch: u64, lower: KeyBound, upper: KeyBound): RangeScan {
    RangeScan(
      match lower {
        case Some((v, inclusive)) =>
          if inclusive then RowKey(tableId, tableEpoch, v) else RowKey(tableId, tableEpoch, v) + [0]
        case None => RowPrefix(tableId, tableEpoch)
      },
      match upper {
        case Some((v, inclusive)) =>
          Some(if inclusive then RowKey(tableId, tableEpoch, v) + [0] else RowKey(tableId, tableEpoch, v))
        case None => NextPrefix(RowPrefix(tableId, tableEpoch))
      })
  }

  // ---------------------------------------------------------------------------------------------
  // Decoding keys.

  /** The rest of `key` after `prefix`. */
  function StripPrefix(key: bytes, prefix: bytes): Option<bytes> {
    if StartsWith(key, prefix) then Some(key[|prefix|..]) else None
  }

  function DecodeWholeKey(t: DataType, suffix: Option<bytes>): Result<ColumnValue> {
    if suffix.None? then Err
    else
      match DecodeKey(t, suffix.value)
      case Err => Err
      case Ok((v, used)) => if used == |suffix.value| then Ok(v) else Err
  }

  function DecodePkFromRowKey(key: bytes, tableId: u32, tableEpoch: u64, t: DataType): Result<ColumnValue> {
    DecodeWholeKey(t, StripPrefix(key, RowPrefix(tableId, tableEpoch)))
  }

  function DecodePkFromIndexEntryKey(key: bytes, indexId: u32, value: ColumnValue, t: DataType): Result<ColumnValue> {
    DecodeWholeKey(t, StripPrefix(key, IndexPrefix(indexId, value)))
  }

  function DecodePkFromRowVersionKey(key: bytes, tableId: u32, tableEpoch: u64, t: DataType)
    : Result<(ColumnValue, u64)>
  {
    match StripPrefix(key, TablePrefix(ROW_VERSION_PREFIX, tableId, tableEpoch))
    case None => Err
    case Some(suffix) =>
      match DecodeKey(t, suffix)
      case Err => Err
      case Ok((v, used)) =>
        if |suffix| != used + 8 then Err
        else Pow256Values(); Ok((v, DESC_VERSION_MAX - FromBe(suffix[used..used + 8])))
  }

  lemma StripOwnPrefix(p: bytes, s: bytes)
    ensures StripPrefix(p + s, p) == Some(s)
  {
    assert (p + s)[..|p|] == p && (p + s)[|p|..] == s;
  }

  lemma RowKeyRoundTrip(tableId: u32, tableEpoch: u64, pk: ColumnValue, t: DataType)
    requires KeyOf(t, pk) && KeySized(pk)
    ensures DecodePkFromRowKey(RowKey(tableId, tableEpoch, pk), tableId, tableEpoch, t) == Ok(pk)
  {
    hide EncodeKey, DecodeKey, KeyOf, KeySized;
    StripOwnPrefix(RowPrefix(tableId, tableEpoch), EncodeKey(pk));
    KeyRoundTrip(t, pk, []);
    assert EncodeKey(pk) + [] == EncodeKey(pk);
  }

  lemma RowVersionKeyRoundTrip(tableId: u32, tableEpoch: u64, pk: ColumnValue, version: u64, t: DataType)
    requires KeyOf(t, pk) && KeySized(pk)
    ensures DecodePkFromRowVersionKey(RowVersionKey(tableId, tableEpoch, pk, version), tableId, tableEpoch, t)
      == Ok((pk, version))
  {
    hide EncodeKey, DecodeKey, KeyOf, KeySized, Be, TablePrefix;
    Pow256Values();
    var p, tail := TablePrefix(ROW_VERSION_PREFIX, tableId, tableEpoch), Be(DESC_VERSION_MAX - version, 8);
    assert RowVersionKey(tableId, tableEpoch, pk, version) == p + (EncodeKey(pk) + tail);
    StripOwnPrefix(p, EncodeKey(pk) + tail);
    KeyRoundTrip(t, pk, tail);
    var suffix, used := EncodeKey(pk) + tail, |EncodeKey(pk)|;
    assert |suffix| == used + 8 && suffix[used..used + 8] == tail;
    FromBeOfBe(DESC_VERSION_MAX - version, 8);
  }

  // ---------------------------------------------------------------------------------------------
  // What scans return.

  lemma TablePrefixInjective(f: byte, t: u32, e: u64, f': byte, t': u32, e': u64)
    ensures TablePrefix(f, t, e) == TablePrefix(f', t', e') <==> f == f' && t == t' && e == e'
  {
    hide Be;
    Pow256Values();
    if TablePrefix(f, t, e) == TablePrefix(f', t', e') {
      SplitEqual([VERSION, f] + Be(t, 4), Be(e, 8), [VERSION, f'] + Be(t', 4), Be(e', 8));
      SplitEqual([VERSION, f], Be(t, 4), [VERSION, f'], Be(t', 4));
      BeNumberOrder(t, t', 4);
      BeNumberOrder(e, e', 8);
      assert [VERSION, f][1] == [VERSION, f'][1];
    }
  }

  lemma IndexPrefixInjective(i: u32, i': u32)
    ensures IndexAllPrefix(i) == IndexAllPrefix(i') <==> i == i'
  {
    hide Be;
    Pow256Values();
    if IndexAllPrefix(i) == IndexAllPrefix(i') {
      SplitEqual([VERSION, INDEX_PREFIX], Be(i, 4), [VERSION, INDEX_PREFIX], Be(i', 4));
      BeNumberOrder(i, i', 4);
    }
  }

  lemma StartsWithSplit(k: bytes, p: bytes)
    requires StartsWith(k, p)
    ensures k == p + k[|p|..]
  {
  }

  lemma StartsWithConcat(p: bytes, a: bytes, p': bytes, b: bytes)
    requires |p| == |p'|
    ensures StartsWith(p' + b, p + a) <==> p == p' && StartsWith(b, a)
  {
    if StartsWith(p' + b, p + a) {
      assert (p' + b)[..|p + a|][..|p|] == p' && (p + a)[..|p|] == p;
      assert (p' + b)[..|p + a|][|p|..] == b[..|a|] && (p + a)[|p|..] == a;
    }
  }

  /** A string that starts with an encoded key starts with no other key. */
  lemma StartsWithKey(v: ColumnValue, w: ColumnValue, y: bytes)
    requires KeySized(v) && KeySized(w)
    ensures StartsWith(EncodeKey(w) + y, EncodeKey(v)) <==> Erase(v) == Erase(w)
  {
    hide EncodeKey, KeySized, Erase;
    var k, p := EncodeKey(w) + y, EncodeKey(v);
    if StartsWith(k, p) {
      StartsWithSplit(k, p);
      KeyPrefixFree(v, k[|p|..], w, y);
    }
    KeyInjective(v, w);
    if Erase(v) == Erase(w) {
      assert k[..|p|] == p;
    }
  }

  /**
   * Among all version keys, a version scan returns those of the one row, whatever the table, the key
   * types and the versions.
   */
  lemma VersionScanIsOneRow(t: u32, e: u64, v: ColumnValue, t': u32, e': u64, w: ColumnValue, version: u64)
    requires KeySized(v) && KeySized(w)
    ensures InRange(RowVersionKey(t', e', w, version), RowVersionRange(t, e, v)) <==>
      t == t' && e == e' && Erase(v) == Erase(w)
  {
    hide EncodeKey, Be, TablePrefix, NextPrefix, KeySized, Erase, InRange, StartsWith;
    var k, p, tail := RowVersionKey(t', e', w, version), RowVersionPrefix(t, e, v), Be(DESC_VERSION_MAX - version, 8);
    PrefixRangeExact(p, k);
    var f, f' := TablePrefix(ROW_VERSION_PREFIX, t, e), TablePrefix(ROW_VERSION_PREFIX, t', e');
    assert k == f' + (EncodeKey(w) + tail);
    StartsWithConcat(f, EncodeKey(v), f', EncodeKey(w) + tail);
    TablePrefixInjective(ROW_VERSION_PREFIX, t, e, ROW_VERSION_PREFIX, t', e');
    StartsWithKey(v, w, tail);
  }

  /** Neither string extends the other, so their first difference decides the order. */
  lemma {:induction false} LtUnrelated(a: bytes, b: bytes, x: bytes, y: bytes)
    requires !StartsWith(a, b) && !StartsWith(b, a)
    ensures Lt(a + x, b + y) <==> Lt(a, b)
    decreases |a|
  {
    if a != [] && b != [] {
      StartsWithStep(a, b);
      StartsWithStep(b, a);
      assert (a + x)[1..] == a[1..] + x && (b + y)[1..] == b[1..] + y;
      if a[0] == b[0] {
        LtUnrelated(a[1..], b[1..], x, y);
      }
    }
  }

  lemma DifferentKeysUnrelated(v: ColumnValue, w: ColumnValue)
    requires KeySized(v) && KeySized(w) && EncodeKey(v) != EncodeKey(w)
    ensures !StartsWith(EncodeKey(v), EncodeKey(w))
  {
    hide EncodeKey, KeySized, Erase;
    var a, b := EncodeKey(v), EncodeKey(w);
    if StartsWith(a, b) {
      assert a + [] == b + a[|b|..];
      KeyPrefixFree(v, [], w, a[|b|..]);
      KeyInjective(v, w);
    }
  }

  /** Version keys of one table sort by row key ascending, then by version descending. */
  lemma VersionKeyOrder(t: u32, e: u64, v: ColumnValue, m: u64, w: ColumnValue, n: u64)
    requires KeySized(v) && KeySized(w)
    ensures Lt(RowVersionKey(t, e, v, m), RowVersionKey(t, e, w, n)) <==>
      Lt(EncodeKey(v), EncodeKey(w)) || (Erase(v) == Erase(w) && m > n)
  {
    hide EncodeKey, Be, TablePrefix, KeySized, Erase;
    Pow256Values();
    var p, x, y := TablePrefix(ROW_VERSION_PREFIX, t, e), Be(DESC_VERSION_MAX - m, 8), Be(DESC_VERSION_MAX - n, 8);
    assert RowVersionKey(t, e, v, m) == p + (EncodeKey(v) + x);
    assert RowVersionKey(t, e, w, n) == p + (EncodeKey(w) + y);
    LtCommonPrefix(p, EncodeKey(v) + x, EncodeKey(w) + y);
    KeyInjective(v, w);
    if EncodeKey(v) == EncodeKey(w) {
      LtCommonPrefix(EncodeKey(v), x, y);
      BeNumberOrder(DESC_VERSION_MAX - m, DESC_VERSION_MAX - n, 8);
      LtIrreflexive(EncodeKey(v));
    } else {
      DifferentKeysUnrelated(v, w);
      DifferentKeysUnrelated(w, v);
      LtUnrelated(EncodeKey(v), EncodeKey(w), x, y);
    }
  }

  /**
   * Among all index entries, an index scan for `v` returns exactly those of that index and value, and each
   * of them gives its row's primary key back.
   */
  lemma IndexScanIsOneValue(i: u32, v: ColumnValue, i': u32, w: ColumnValue, pk: ColumnValue, t: DataType)
    requires KeySized(v) && KeySized(w) && KeySized(pk) && KeyOf(t, pk)
    ensures var k := IndexEntryKey(i', w, pk);
      && (InRange(k, PrefixScan(IndexPrefix(i, v))) <==> i == i' && Erase(v) == Erase(w))
      && DecodePkFromIndexEntryKey(k, i, v, t) == if i == i' && Erase(v) == Erase(w) then Ok(pk) else Err
  {
    hide EncodeKey, DecodeKey, IndexAllPrefix, NextPrefix, KeySized, KeyOf, Erase, InRange, StartsWith;
    var k, p := IndexEntryKey(i', w, pk), IndexPrefix(i, v);
    PrefixRangeExact(p, k);
    assert k == IndexAllPrefix(i') + (EncodeKey(w) + EncodeKey(pk));
    StartsWithConcat(IndexAllPrefix(i), EncodeKey(v), IndexAllPrefix(i'), EncodeKey(w) + EncodeKey(pk));
    IndexPrefixInjective(i, i');
    StartsWithKey(v, w, EncodeKey(pk));
    if i == i' && Erase(v) == Erase(w) {
      KeyInjective(v, w);
      StripOwnPrefix(p, EncodeKey(pk));
      KeyRoundTrip(t, pk, []);
      assert EncodeKey(pk) + [] == EncodeKey(pk);
    }
  }

  // ---------------------------------------------------------------------------------------------
  // Ranges between primary key bounds.

  /** The bounds hold of `pk` in the order of its encoding. */
  predicate WithinKeys(pk: ColumnValue, lower: KeyBound, upper: KeyBound) {
    && (lower.Some? ==> var (v, inclusive) := lower.value;
        if inclusive then Le(EncodeKey(v), EncodeKey(pk)) else Lt(EncodeKey(v), EncodeKey(pk)))
    && (upper.Some? ==> var (v, inclusive) := upper.value;
        if inclusive then Le(EncodeKey(pk), EncodeKey(v)) else Lt(EncodeKey(pk), EncodeKey(v)))
  }

  lemma BoundHolds(t: u32, e: u64, v: ColumnValue, pk: ColumnValue)
    ensures Le(RowKey(t, e, v), RowKey(t, e, pk)) <==> Le(EncodeKey(v), EncodeKey(pk))
    ensures Le(RowKey(t, e, v) + [0], RowKey(t, e, pk)) <==> Lt(EncodeKey(v), EncodeKey(pk))
    ensures Lt(RowKey(t, e, pk), RowKey(t, e, v)) <==> Lt(EncodeKey(pk), EncodeKey(v))
    ensures Lt(RowKey(t, e, pk), RowKey(t, e, v) + [0]) <==> Le(EncodeKey(pk), EncodeKey(v))
  {
    hide EncodeKey, TablePrefix;
    LtCommonPrefix(RowPrefix(t, e), EncodeKey(v), EncodeKey(pk));
    LtCommonPrefix(RowPrefix(t, e), EncodeKey(pk), EncodeKey(v));
    ZeroByteIsSuccessor(RowKey(t, e, v), RowKey(t, e, pk));
  }

  /** A row of the table lies in the range exactly when its key is within the bounds. */
  lemma RangeBetweenExact(t: u32, e: u64, lower: KeyBound, upper: KeyBound, pk: ColumnValue)
    ensures InRange(RowKey(t, e, pk), RowRangeBetween(t, e, lower, upper)) <==> WithinKeys(pk, lower, upper)
  {
    hide EncodeKey, TablePrefix, NextPrefix, Lt;
    if lower.Some? { BoundHolds(t, e, lower.value.0, pk); }
    if upper.Some? { BoundHolds(t, e, upper.value.0, pk); }
    PrefixRangeExact(RowPrefix(t, e), RowKey(t, e, pk));
    assert RowKey(t, e, pk)[..|RowPrefix(t, e)|] == RowPrefix(t, e);
  }

  /** No range between bounds reaches outside the table. */
  lemma RangeBetweenStaysInTable(t: u32, e: u64, lower: KeyBound, upper: KeyBound, k: bytes)
    requires InRange(k, RowRangeBetween(t, e, lower, upper))
    ensures StartsWith(k, RowPrefix(t, e))
  {
    hide EncodeKey, TablePrefix, NextPrefix, Lt;
    var p, r := RowPrefix(t, e), RowRangeBetween(t, e, lower, upper);
    PrefixRangeExact(p, k);
    PrefixRangeExact(p, r.start);
    assert StartsWith(r.start, p);
    LeLtTransitive(p, r.start, k);
    if upper.Some? {
      PrefixRangeExact(p, r.end.value);
      assert StartsWith(r.end.value, p);
      if NextPrefix(p).Some? {
        LtTransitive(k, r.end.value, NextPrefix(p).value);
      }
    }
  }
}
