/** A position-advancing reader over a byte string, and the pure reads it performs. */
module Reader {
  import opened Basics
  import opened Bytes

  /** A read from some position: its value and the position after it, or a failure. */
  datatype Read<+T> = Fail | Read(value: T, next: nat)

  /** A big-endian unsigned number of `w` bytes: u8, u32, u64, and the bit patterns of f32 and f64. */
  function ReadUnsigned(b: bytes, pos: nat, w: nat): (r: Read<nat>)
    ensures r.Read? ==> r.value < Pow256(w) && r.next == pos + w <= |b|
  {
    if pos + w <= |b| then Read(FromBe(b[pos..pos + w]), pos + w) else Fail
  }

  /** A two's complement number of `w` bytes: i16, i32, i64. */
  function ReadSigned(b: bytes, pos: nat, w: nat): (r: Read<int>)
    ensures r.Read? ==> InSigned(r.value, w) && r.next == pos + w <= |b|
  {
    if pos + w <= |b| then Read(FromUnsigned(FromBe(b[pos..pos + w]), w), pos + w) else Fail
  }

  /** A byte string preceded by its length as a u32. */
  function ReadSegment(b: bytes, pos: nat): (r: Read<bytes>)
    ensures r.Read? ==> r.next == pos + 4 + |r.value| <= |b|
  {
    var len := ReadUnsigned(b, pos, 4);
    if len.Read? && len.next + len.value <= |b| then Read(b[len.next..len.next + len.value], len.next + len.value)
    else Fail
  }

  function Skip(b: bytes, pos: nat, len: nat): (r: Read<()>) {
    if pos + len <= |b| then Read((), pos + len) else Fail
  }

  function PushSegment(s: bytes): bytes {
    Be(|s|, 4) + s
  }

  lemma ReadUnsignedAt(b: bytes, pos: nat, n: nat, w: nat)
    requires n < Pow256(w) && At(b, pos, Be(n, w))
    ensures ReadUnsigned(b, pos, w) == Read(n, pos + w)
  {
    FromBeOfBe(n, w);
  }

  lemma ReadSignedAt(b: bytes, pos: nat, v: int, w: nat)
    requires w > 0 && InSigned(v, w)
    requires 0 <= ToUnsigned(v, w) && At(b, pos, Be(ToUnsigned(v, w), w))
    ensures ReadSigned(b, pos, w) == Read(v, pos + w)
  {
    SignedRoundTrip(v, w);
    FromBeOfBe(ToUnsigned(v, w), w);
  }

  lemma ReadSegmentAt(b: bytes, pos: nat, s: bytes)
    requires |s| < 0x1_0000_0000 && At(b, pos, PushSegment(s))
    ensures ReadSegment(b, pos) == Read(s, pos + 4 + |s|)
  {
    Pow256Values();
    AtConcat(b, pos, Be(|s|, 4), s);
    ReadUnsignedAt(b, pos, |s|, 4);
  }

  /** A method performed the read `r`: it failed likewise, or returned the value and left the position. */
  ghost predicate Performed<T>(r: Read<T>, position: nat, result: Result<T>) {
    match r
    case Fail => result == Err
    case Read(value, next) => result == Ok(value) && position == next
  }

  /** `Cursor`: every read moves `pos` past what it read. */
  class Cursor {
    const data: bytes
    var pos: nat

    constructor (data: bytes)
      ensures this.data == data && pos == 0
    {
      this.data := data;
      pos := 0;
    }

    predicate Valid()
      reads this
    {
      pos <= |data|
    }

    method Unsigned(w: nat) returns (r: Result<nat>)
      requires Valid()
      modifies this
      ensures Valid() && Performed(ReadUnsigned(data, old(pos), w), pos, r)
    {
      if |data| < pos + w {
        return Err;
      }
      r := Ok(FromBe(data[pos..pos + w]));
      pos := pos + w;
    }

    method Signed(w: nat) returns (r: Result<int>)
      requires Valid()
      modifies this
      ensures Valid() && Performed(ReadSigned(data, old(pos), w), pos, r)
    {
      if |data| < pos + w {
        return Err;
      }
      r := Ok(FromUnsigned(FromBe(data[pos..pos + w]), w));
      pos := pos + w;
    }

    method BytesSegment() returns (r: Result<bytes>)
      requires Valid()
      modifies this
      ensures Valid() && Performed(ReadSegment(data, old(pos)), pos, r)
    {
      if |data| < pos + 4 {
        return Err;
      }
      var start := pos + 4;
      var len := FromBe(data[pos..start]);
      if |data| < start + len {
        return Err;
      }
      r := Ok(data[start..start + len]);
      pos := start + len;
    }

    method SkipBytes(len: nat) returns (r: Result<()>)
      requires Valid()
      modifies this
      ensures Valid() && Performed(Skip(data, old(pos), len), pos, r)
    {
      if |data| < pos + len {
        return Err;
      }
      pos := pos + len;
      r := Ok(());
    }
  }
}
