/** Chunk metadata, column chunks and table statistics as bytes. */
module OlapCodec {
  import opened Basics
  import opened Bytes
  import opened Values
  import opened Reader
  import opened TupleCodec
  import opened ZoneMaps
  import opened ChunkPruning

  const OLAP_VERSION: byte := 2

  datatype TableStats = TableStats(rowCount: u64, zones: seq<Zone>)

  // ---------------------------------------------------------------------------------------------
  // Encoding.

  function EncodeBound(bound: Option<ColumnValue>): bytes {
    match bound
    case None => [0]
    case Some(v) => [1] + EncodeTuple(v)
  }

  function EncodeZone(z: Zone): bytes {
    Be(z.columnId, 4) + (Be(z.nullCount, 8) + (EncodeBound(z.min) + EncodeBound(z.max)))
  }

  function EncodeZoneList(zones: seq<Zone>): bytes {
    if zones == [] then [] else EncodeZone(zones[0]) + EncodeZoneList(zones[1..])
  }

  /** `encode_zone_maps`. */
  function EncodeZones(zones: seq<Zone>): bytes {
    Be(|zones|, 4) + EncodeZoneList(zones)
  }

  /** `encode_olap_chunk_meta`. */
  function EncodeChunkMeta(m: ChunkMeta): bytes {
    [OLAP_VERSION] + (Be(m.chunkId, 8) + (Be(m.rowCount, 4) + EncodeZones(m.zones)))
  }

  /** `encode_olap_column_chunk`. */
  function EncodeColumnChunk(values: seq<ColumnValue>): bytes {
    [OLAP_VERSION] + (Be(|values|, 4) + EncodeTuples(values))
  }

  /** `encode_table_stats`. */
  function EncodeStats(s: TableStats): bytes {
    [OLAP_VERSION] + (Be(s.rowCount, 8) + EncodeZones(s.zones))
  }

  // ---------------------------------------------------------------------------------------------
  // Decoding.

  function DecodeBound(b: bytes, pos: nat): (r: Read<Option<ColumnValue>>)
    requires pos <= |b|
    ensures r.Read? ==> pos < r.next <= |b|
  {
    if pos == |b| then Fail
    else if b[pos] == 0 then Read(None, pos + 1)
    else if b[pos] == 1 then
      match DecodeTuple(b, pos + 1)
      case Fail => Fail
      case Read(v, next) => Read(Some(v), next)
    else Fail
  }

  function DecodeZone(b: bytes, pos: nat): (r: Read<Zone>)
    requires pos <= |b|
    ensures r.Read? ==> pos < r.next <= |b|
  {
    Pow256Values();
    var id := ReadUnsigned(b, pos, 4);
    if id.Fail? then Fail
    else
      var nulls := ReadUnsigned(b, id.next, 8);
      if nulls.Fail? then Fail
      else
        var min := DecodeBound(b, nulls.next);
        if min.Fail? then Fail
        else
          var max := DecodeBound(b, min.next);
          if max.Fail? then Fail else Read(Zone(id.value, nulls.value, min.value, max.value), max.next)
  }

  function DecodeZoneList(b: bytes, pos: nat, count: nat): (r: Read<seq<Zone>>)
    requires pos <= |b|
    ensures r.Read? ==> pos <= r.next <= |b|
    decreases count
  {
    if count == 0 then Read([], pos)
    else
      match DecodeZone(b, pos)
      case Fail => Fail
      case Read(z, next) =>
        match DecodeZoneList(b, next, count - 1)
        case Fail => Fail
        case Read(zs, end) => Read([z] + zs, end)
  }

  /** `decode_zone_maps`. */
  function DecodeZones(b: bytes, pos: nat): (r: Read<seq<Zone>>)
    requires pos <= |b|
    ensures r.Read? ==> pos <= r.next <= |b|
  {
    match ReadUnsigned(b, pos, 4)
    case Fail => Fail
    case Read(count, next) => DecodeZoneList(b, next, count)
  }

  /** A decoded record that must end with the bytes. */
  function Whole<T>(b: bytes, r: Read<T>): Result<T> {
    if r.Read? && r.next == |b| then Ok(r.value) else Err
  }

  predicate HasVersion(b: bytes) {
    b != [] && b[0] == OLAP_VERSION
  }

  function DecodeChunkMeta(b: bytes): Result<ChunkMeta> {
    Pow256Values();
    if !HasVersion(b) then Err
    else
      var id := ReadUnsigned(b, 1, 8);
      if id.Fail? then Err
      else
        var count := ReadUnsigned(b, id.next, 4);
        if count.Fail? then Err
        else
          match Whole(b, DecodeZones(b, count.next))
          case Err => Err
          case Ok(zones) => Ok(ChunkMeta(id.value, count.value, zones))
  }

  function DecodeColumnChunk(b: bytes): Result<seq<ColumnValue>> {
    if !HasVersion(b) then Err
    else
      match ReadUnsigned(b, 1, 4)
      case Fail => Err
      case Read(count, next) => Whole(b, DecodeTuples(b, next, count))
  }

  function DecodeStats(b: bytes): Result<TableStats> {
    Pow256Values();
    if !HasVersion(b) then Err
    else
      match ReadUnsigned(b, 1, 8)
      case Fail => Err
      case Read(count, next) =>
        match Whole(b, DecodeZones(b, next))
        case Err => Err
        case Ok(zones) => Ok(TableStats(count, zones))
  }

  // ---------------------------------------------------------------------------------------------
  // The decoders as they run.

  method DecodeZoneBound(c: Cursor) returns (r: Result<Option<ColumnValue>>)
    requires c.Valid()
    modifies c
    ensures c.Valid() && Performed(DecodeBound(c.data, old(c.pos)), c.pos, r)
  {
    ghost var start := c.pos;
    var tag := c.Unsigned(1);
    if tag.Err? { return Err; }
    assert tag.value == c.data[start] by { assert FromBe([]) == 0; }
    if tag.value == 0 { return Ok(None); }
    if tag.value != 1 { return Err; }
    var value := DecodeTupleValue(c);
    r := if value.Ok? then Ok(Some(value.value)) else Err;
  }

  method DecodeZoneMaps(c: Cursor) returns (r: Result<seq<Zone>>)
    requires c.Valid()
    modifies c
    ensures c.Valid() && Performed(DecodeZones(c.data, old(c.pos)), c.pos, r)
  {
    hide DecodeBound;
    var count := c.Unsigned(4);
    if count.Err? { return Err; }
    ghost var first := c.pos;
    var zones, i := [], 0;
    AfterNone(DecodeZoneList(c.data, first, count.value));
    while i < count.value
      invariant c.Valid() && 0 <= i <= count.value && first <= c.pos
      invariant DecodeZoneList(c.data, first, count.value) == AfterZones(zones, DecodeZoneList(c.data, c.pos, count.value - i))
    {
      Pow256Values();
      var id := c.Unsigned(4);
      if id.Err? { return Err; }
      var nulls := c.Unsigned(8);
      if nulls.Err? { return Err; }
      var min := DecodeZoneBound(c);
      if min.Err? { return Err; }
      var max := DecodeZoneBound(c);
      if max.Err? { return Err; }
      var zone := Zone(id.value, nulls.value, min.value, max.value);
      AfterOneMore(zones, zone, DecodeZoneList(c.data, c.pos, count.value - i - 1));
      zones := zones + [zone];
      i := i + 1;
    }
    assert zones + [] == zones;
    r := Ok(zones);
  }

  ghost function AfterZones(zones: seq<Zone>, rest: Read<seq<Zone>>): Read<seq<Zone>> {
    match rest
    case Fail => Fail
    case Read(zs, next) => Read(zones + zs, next)
  }

  lemma AfterNone(rest: Read<seq<Zone>>)
    ensures AfterZones([], rest) == rest
  {
    if rest.Read? {
      assert [] + rest.value == rest.value;
    }
  }

  lemma AfterOneMore(zones: seq<Zone>, z: Zone, rest: Read<seq<Zone>>)
    ensures AfterZones(zones + [z], rest) == AfterZones(zones, AfterZones([z], rest))
  {
    if rest.Read? {
      assert zones + ([z] + rest.value) == zones + [z] + rest.value;
    }
  }

  // ---------------------------------------------------------------------------------------------
  // Round trips.

  predicate ZoneSized(z: Zone) {
    (z.min.Some? ==> WellSized(z.min.value)) && (z.max.Some? ==> WellSized(z.max.value))
  }

  predicate ZonesSized(zones: seq<Zone>) {
    |zones| < 0x1_0000_0000 && forall i :: 0 <= i < |zones| ==> ZoneSized(zones[i])
  }

  lemma BoundAt(bound: Option<ColumnValue>, b: bytes, pos: nat)
    requires At(b, pos, EncodeBound(bound)) && (bound.Some? ==> WellSized(bound.value))
    ensures DecodeBound(b, pos) == Read(bound, pos + |EncodeBound(bound)|)
  {
    hide DecodeTuple, EncodeTuple;
    assert b[pos] == EncodeBound(bound)[0];
    if bound.Some? {
      AtConcat(b, pos, [1], EncodeTuple(bound.value));
      TupleRoundTrip(bound.value, b, pos + 1);
    }
  }

  lemma ZoneAt(z: Zone, b: bytes, pos: nat)
    requires At(b, pos, EncodeZone(z)) && ZoneSized(z)
    ensures DecodeZone(b, pos) == Read(z, pos + |EncodeZone(z)|)
  {
    hide At, EncodeBound, DecodeBound, Be, WellSized;
    Pow256Values();
    AtConcat(b, pos, Be(z.columnId, 4), Be(z.nullCount, 8) + (EncodeBound(z.min) + EncodeBound(z.max)));
    AtConcat(b, pos + 4, Be(z.nullCount, 8), EncodeBound(z.min) + EncodeBound(z.max));
    AtConcat(b, pos + 12, EncodeBound(z.min), EncodeBound(z.max));
    ReadUnsignedAt(b, pos, z.columnId, 4);
    ReadUnsignedAt(b, pos + 4, z.nullCount, 8);
    BoundAt(z.min, b, pos + 12);
    BoundAt(z.max, b, pos + 12 + |EncodeBound(z.min)|);
  }

  lemma {:induction false} ZoneListAt(zones: seq<Zone>, b: bytes, pos: nat)
    requires pos <= |b| && At(b, pos, EncodeZoneList(zones)) && forall i :: 0 <= i < |zones| ==> ZoneSized(zones[i])
    ensures DecodeZoneList(b, pos, |zones|) == Read(zones, pos + |EncodeZoneList(zones)|)
    decreases |zones|
  {
    hide At, EncodeZone, DecodeZone, ZoneSized;
    if zones != [] {
      AtConcat(b, pos, EncodeZone(zones[0]), EncodeZoneList(zones[1..]));
      ZoneAt(zones[0], b, pos);
      ZoneListAt(zones[1..], b, pos + |EncodeZone(zones[0])|);
      assert zones == [zones[0]] + zones[1..];
    }
  }

  lemma ZonesAt(zones: seq<Zone>, b: bytes, pos: nat)
    requires pos <= |b| && At(b, pos, EncodeZones(zones)) && ZonesSized(zones)
    ensures DecodeZones(b, pos) == Read(zones, pos + |EncodeZones(zones)|)
  {
    hide EncodeZoneList, DecodeZoneList, Be;
    Pow256Values();
    AtConcat(b, pos, Be(|zones|, 4), EncodeZoneList(zones));
    ReadUnsignedAt(b, pos, |zones|, 4);
    ZoneListAt(zones, b, pos + 4);
  }

  lemma WholeAt(b: bytes)
    ensures At(b, 0, b)
  {
    assert b[0..|b|] == b;
  }

  /** Encoded chunk metadata decodes to itself, and to nothing once anything is appended. */
  lemma ChunkMetaRoundTrip(m: ChunkMeta, x: bytes)
    requires ZonesSized(m.zones)
    ensures DecodeChunkMeta(EncodeChunkMeta(m) + x) == if x == [] then Ok(m) else Err
  {
    hide At, EncodeZones, DecodeZones, Be, ZonesSized;
    Pow256Values();
    var code := EncodeChunkMeta(m);
    var b := code + x;
    WholeAt(b);
    AtConcat(b, 0, code, x);
    AtConcat(b, 0, [OLAP_VERSION], Be(m.chunkId, 8) + (Be(m.rowCount, 4) + EncodeZones(m.zones)));
    AtConcat(b, 1, Be(m.chunkId, 8), Be(m.rowCount, 4) + EncodeZones(m.zones));
    AtConcat(b, 9, Be(m.rowCount, 4), EncodeZones(m.zones));
    ReadUnsignedAt(b, 1, m.chunkId, 8);
    ReadUnsignedAt(b, 9, m.rowCount, 4);
    assert b[0] == OLAP_VERSION && |code| == 13 + |EncodeZones(m.zones)|;
    ZonesAt(m.zones, b, 13);
  }

  lemma ColumnChunkRoundTrip(values: seq<ColumnValue>, x: bytes)
    requires |values| < 0x1_0000_0000 && forall i :: 0 <= i < |values| ==> WellSized(values[i])
    ensures DecodeColumnChunk(EncodeColumnChunk(values) + x) == if x == [] then Ok(values) else Err
  {
    hide At, EncodeTuples, DecodeTuples, Be, WellSized;
    Pow256Values();
    var code := EncodeColumnChunk(values);
    var b := code + x;
    WholeAt(b);
    AtConcat(b, 0, code, x);
    AtConcat(b, 0, [OLAP_VERSION], Be(|values|, 4) + EncodeTuples(values));
    AtConcat(b, 1, Be(|values|, 4), EncodeTuples(values));
    ReadUnsignedAt(b, 1, |values|, 4);
    assert b[0] == OLAP_VERSION && |code| == 5 + |EncodeTuples(values)|;
    TuplesRoundTrip(values, b, 5);
  }

  lemma StatsRoundTrip(s: TableStats, x: bytes)
    requires ZonesSized(s.zones)
    ensures DecodeStats(EncodeStats(s) + x) == if x == [] then Ok(s) else Err
  {
    hide At, EncodeZones, DecodeZones, Be, ZonesSized;
    Pow256Values();
    var code := EncodeStats(s);
    var b := code + x;
    WholeAt(b);
    AtConcat(b, 0, code, x);
    AtConcat(b, 0, [OLAP_VERSION], Be(s.rowCount, 8) + EncodeZones(s.zones));
    AtConcat(b, 1, Be(s.rowCount, 8), EncodeZones(s.zones));
    ReadUnsignedAt(b, 1, s.rowCount, 8);
    assert b[0] == OLAP_VERSION && |code| == 9 + |EncodeZones(s.zones)|;
    ZonesAt(s.zones, b, 9);
  }
}
