/** Fixed-width column values of a v4 row, and where each column lives inside its row. */
module FixedColumns {
  import opened Basics
  import opened Bytes
  import opened Floats
  import opened Values
  import opened TupleCodec
  import opened Reader

  /** `fixed_width`. Signed MySQL INT and unsigned BIGINT have none. */
  function FixedWidth(t: DataType): (r: Option<nat>)
    ensures r.Some? ==> r.value in {1, 2, 4, 8}
  {
    match t
    case BooleanType => Some(1)
    case Int16Type => Some(2)
    case MySqlInt(kind, unsigned) =>
      if (kind.Tiny? || kind.Small?) && !unsigned then Some(2)
      else if kind.Int? && unsigned then Some(8)
      else if kind.Tiny? || kind.Small? || kind.Medium? then Some(4)
      else if kind.Big? && !unsigned then Some(8)
      else None
    case Int32Type => Some(4)
    case Int64Type => Some(8)
    case Year => Some(4)
    case Bit => Some(8)
    case Float32Type => Some(4)
    case MySqlFloat => Some(4)
    case Float64Type => Some(8)
    case MySqlDouble => Some(8)
    case _ => None
  }

  function ZeroBytes(n: nat): (r: bytes)
    ensures |r| == n && forall i :: 0 <= i < n ==> r[i] == 0
  {
    seq(n, _ => 0)
  }

  /** `encode_fixed_value` into a zeroed region: a value whose width differs writes nothing. */
  function EncodeFixed(width: nat, v: ColumnValue): (r: bytes)
    ensures |r| == width
  {
    match v
    case Boolean(x) => if width == 1 then [if x then 1 else 0] else ZeroBytes(width)
    case Int16(x) => if width == 2 then Be(TwosComplement(x, 2), 2) else ZeroBytes(width)
    case Int32(x) => if width == 4 then Be(TwosComplement(x, 4), 4) else ZeroBytes(width)
    case Int64(x) => if width == 8 then Be(TwosComplement(x, 8), 8) else ZeroBytes(width)
    case Float32(x) => if width == 4 then Be(x, 4) else ZeroBytes(width)
    case Float64(x) => if width == 8 then Be(x, 8) else ZeroBytes(width)
    case _ => ZeroBytes(width)
  }

  /** The variant that `decode_fixed_value` produces for a fixed-width type. */
  datatype FixedKind = BoolKind | ShortKind | IntKind | LongKind | FloatKind | DoubleKind

  function KindOf(t: DataType): FixedKind
    requires FixedWidth(t).Some?
  {
    match t
    case BooleanType => BoolKind
    case Float32Type => FloatKind
    case MySqlFloat => FloatKind
    case Float64Type => DoubleKind
    case MySqlDouble => DoubleKind
    case _ => if FixedWidth(t).value == 2 then ShortKind else if FixedWidth(t).value == 4 then IntKind else LongKind
  }

  /** `decode_fixed_value` and `decode_mysql_fixed_int`. */
  function DecodeFixed(t: DataType, b: bytes): Result<ColumnValue> {
    Pow256Values();
    var n := |b|;
    match t
    case BooleanType => if n == 1 then Ok(Boolean(b[0] != 0)) else Err
    case MySqlInt(kind, unsigned) =>
      if (kind.Tiny? || kind.Small?) && !unsigned && n == 2 then Ok(Int16(FromUnsigned(FromBe(b), 2)))
      else if (((kind.Tiny? || kind.Small?) && unsigned) || kind.Medium? || (kind.Int? && !unsigned)) && n == 4 then
        Ok(Int32(FromUnsigned(FromBe(b), 4)))
      else if ((kind.Int? && unsigned) || (kind.Big? && !unsigned)) && n == 8 then Ok(Int64(FromUnsigned(FromBe(b), 8)))
      else Err
    case Bit => if n == 8 then Ok(Int64(FromUnsigned(FromBe(b), 8))) else Err
    case Year => if n == 4 then Ok(Int32(FromUnsigned(FromBe(b), 4))) else Err
    case Int16Type => if n == 2 then Ok(Int16(FromUnsigned(FromBe(b), 2))) else Err
    case Int32Type => if n == 4 then Ok(Int32(FromUnsigned(FromBe(b), 4))) else Err
    case Int64Type => if n == 8 then Ok(Int64(FromUnsigned(FromBe(b), 8))) else Err
    case Float32Type => if n == 4 then Ok(Float32(FromBe(b))) else Err
    case MySqlFloat => if n == 4 then Ok(Float32(FromBe(b))) else Err
    case Float64Type => if n == 8 then Ok(Float64(FromBe(b))) else Err
    case MySqlDouble => if n == 8 then Ok(Float64(FromBe(b))) else Err
    case _ => Err
  }

  /** `decode_fixed_numeric_value`. */
  function DecodeFixedNumeric(t: DataType, b: bytes): Result<FastNumeric> {
    Pow256Values();
    var n := |b|;
    match t
    case MySqlInt(kind, unsigned) =>
      (match DecodeFixed(t, b)
       case Ok(Int16(x)) => Ok(I64(x))
       case Ok(Int32(x)) => Ok(I64(x))
       case Ok(Int64(x)) => Ok(I64(x))
       case _ => Err)
    case Bit => if n == 8 then Ok(I64(FromUnsigned(FromBe(b), 8))) else Err
    case Year => if n == 4 then Ok(I64(FromUnsigned(FromBe(b), 4))) else Err
    case Int16Type => if n == 2 then Ok(I64(FromUnsigned(FromBe(b), 2))) else Err
    case Int32Type => if n == 4 then Ok(I64(FromUnsigned(FromBe(b), 4))) else Err
    case Int64Type => if n == 8 then Ok(I64(FromUnsigned(FromBe(b), 8))) else Err
    case Float32Type => if n == 4 then Ok(F64(Widen(FromBe(b)))) else Err
    case MySqlFloat => if n == 4 then Ok(F64(Widen(FromBe(b)))) else Err
    case Float64Type => if n == 8 then Ok(F64(FromBe(b))) else Err
    case MySqlDouble => if n == 8 then Ok(F64(FromBe(b))) else Err
    case _ => Err
  }

  /** The value is of the variant that a fixed-width column of type `t` reads back. */
  predicate FixedVariant(t: DataType, v: ColumnValue) {
    && FixedWidth(t).Some?
    && match KindOf(t)
       case BoolKind => v.Boolean?
       case ShortKind => v.Int16?
       case IntKind => v.Int32?
       case LongKind => v.Int64?
       case FloatKind => v.Float32?
       case DoubleKind => v.Float64?
  }

  lemma SignedBytes(x: int, w: nat)
    requires w > 0 && InSigned(x, w)
    ensures FromUnsigned(FromBe(Be(TwosComplement(x, w), w)), w) == x
  {
    SignedRoundTrip(x, w);
    FromBeOfBe(TwosComplement(x, w), w);
  }

  lemma OwnVariantRoundTrip(t: DataType, v: ColumnValue)
    requires FixedVariant(t, v)
    ensures DecodeFixed(t, EncodeFixed(FixedWidth(t).value, v)) == Ok(v)
  {
    Pow256Values();
    match v {
      case Int16(x) => SignedBytes(x, 2);
      case Int32(x) => SignedBytes(x, 4);
      case Int64(x) => SignedBytes(x, 8);
      case Float32(x) => FromBeOfBe(x, 4);
      case Float64(x) => FromBeOfBe(x, 8);
      case Boolean(_) =>
    }
    hide FromBe, Be, TwosComplement, FromUnsigned;
  }

  /** Reading a fixed-width column always gives a value of its own variant. */
  lemma DecodeFixedVariant(t: DataType, b: bytes)
    requires FixedWidth(t) == Some(|b|)
    ensures DecodeFixed(t, b).Ok? && FixedVariant(t, DecodeFixed(t, b).value)
  {
  }

  /**
   * A non-null value survives a fixed-width column exactly when it is of the column's own variant; any
   * other value is written as zeros, or read back as a different variant.
   */
  lemma FixedRoundTrip(t: DataType, v: ColumnValue)
    requires FixedWidth(t).Some?
    ensures DecodeFixed(t, EncodeFixed(FixedWidth(t).value, v)) == Ok(v) <==> FixedVariant(t, v)
  {
    DecodeFixedVariant(t, EncodeFixed(FixedWidth(t).value, v));
    if FixedVariant(t, v) {
      OwnVariantRoundTrip(t, v);
    }
  }

  /** The numeric decoder gives the numeric view of what the general decoder gives (Booleans have none). */
  lemma FixedNumericAgrees(t: DataType, b: bytes)
    requires DecodeFixed(t, b).Ok?
    ensures DecodeFixedNumeric(t, b) ==
      if NumericView(DecodeFixed(t, b).value).Some? then Ok(NumericView(DecodeFixed(t, b).value).value) else Err
  {
  }

  // ---------------------------------------------------------------------------------------------
  // Where columns live.

  function ColumnWidth(c: ColumnSchema): nat {
    if FixedWidth(c.dataType).Some? then FixedWidth(c.dataType).value else 0
  }

  /** Total width of the fixed columns among the first `n`. */
  function FixedSum(columns: seq<ColumnSchema>, n: nat): nat
    requires n <= |columns|
  {
    if n == 0 then 0 else FixedSum(columns, n - 1) + ColumnWidth(columns[n - 1])
  }

  /** How many of the first `n` columns are variable-width. */
  function VariableCount(columns: seq<ColumnSchema>, n: nat): nat
    requires n <= |columns|
  {
    if n == 0 then 0 else VariableCount(columns, n - 1) + if FixedWidth(columns[n - 1].dataType).Some? then 0 else 1
  }

  lemma {:induction false} SumsMonotone(columns: seq<ColumnSchema>, m: nat, n: nat)
    requires m <= n <= |columns|
    ensures FixedSum(columns, m) <= FixedSum(columns, n)
    ensures VariableCount(columns, m) <= VariableCount(columns, n)
    decreases n
  {
    if m < n {
      SumsMonotone(columns, m, n - 1);
    }
  }

  /** The sums over the first `n` columns do not depend on the columns after them. */
  lemma {:induction false} SumsOfPrefix(columns: seq<ColumnSchema>, more: seq<ColumnSchema>, n: nat)
    requires n <= |columns| && columns <= more
    ensures FixedSum(columns, n) == FixedSum(more, n)
    ensures VariableCount(columns, n) == VariableCount(more, n)
    decreases n
  {
    if n > 0 {
      SumsOfPrefix(columns, more, n - 1);
    }
  }

  /** `fixed_offsets_for_columns`: a running offset, advanced by every fixed column. */
  method FixedOffsets(columns: seq<ColumnSchema>) returns (r: seq<Option<nat>>)
    ensures |r| == |columns|
    ensures forall i {:trigger r[i]} :: 0 <= i < |r| ==>
      r[i] == if FixedWidth(columns[i].dataType).Some? then Some(FixedSum(columns, i)) else None
  {
    hide FixedWidth;
    var offset: nat := 0;
    r := [];
    for i := 0 to |columns|
      invariant |r| == i && offset == FixedSum(columns, i)
      invariant forall j {:trigger r[j]} :: 0 <= j < i ==>
        r[j] == if FixedWidth(columns[j].dataType).Some? then Some(FixedSum(columns, j)) else None
    {
      var width := FixedWidth(columns[i].dataType);
      if width.Some? {
        r := r + [Some(offset)];
        offset := offset + width.value;
      } else {
        r := r + [None];
      }
    }
  }

  /** `variable_positions_for_columns`: a running count of the variable columns. */
  method VariablePositions(columns: seq<ColumnSchema>) returns (r: seq<Option<nat>>)
    ensures |r| == |columns|
    ensures forall i {:trigger r[i]} :: 0 <= i < |r| ==>
      r[i] == if FixedWidth(columns[i].dataType).Some? then None else Some(VariableCount(columns, i))
  {
    hide FixedWidth;
    var position: nat := 0;
    r := [];
    for i := 0 to |columns|
      invariant |r| == i && position == VariableCount(columns, i)
      invariant forall j {:trigger r[j]} :: 0 <= j < i ==>
        r[j] == if FixedWidth(columns[j].dataType).Some? then None else Some(VariableCount(columns, j))
    {
      if FixedWidth(columns[i].dataType).Some? {
        r := r + [None];
      } else {
        r := r + [Some(position)];
        position := position + 1;
      }
    }
  }

  // ---------------------------------------------------------------------------------------------
  // The null bitmap: bit (i mod 8) of byte (i div 8) is set when column i is null.

  /** `byte & (1 << k) != 0`. */
  predicate TestBit(b: nat, k: nat)
    decreases k
  {
    if k == 0 then b % 2 == 1 else TestBit(b / 2, k - 1)
  }

  /** `byte | (1 << k)`. */
  function SetBit(b: nat, k: nat): nat
    decreases k
  {
    if k == 0 then b - b % 2 + 1 else 2 * SetBit(b / 2, k - 1) + b % 2
  }

  lemma {:induction false} SetBitBits(b: nat, k: nat, j: nat)
    ensures TestBit(SetBit(b, k), j) <==> j == k || TestBit(b, j)
    decreases k
  {
    if k > 0 && j > 0 {
      SetBitBits(b / 2, k - 1, j - 1);
      assert SetBit(b, k) / 2 == SetBit(b / 2, k - 1);
    } else if j > 0 {
      assert SetBit(b, k) / 2 == b / 2;
    }
  }

  function Pow2(n: nat): nat {
    if n == 0 then 1 else 2 * Pow2(n - 1)
  }

  lemma {:induction false} SetBitBound(b: nat, k: nat, n: nat)
    requires b < Pow2(n) && k < n
    ensures SetBit(b, k) < Pow2(n)
    decreases k
  {
    Halves(b, Pow2(n - 1));
    if k > 0 {
      SetBitBound(b / 2, k - 1, n - 1);
    }
  }

  lemma Halves(b: nat, p: nat)
    requires b < 2 * p
    ensures b / 2 < p && b == 2 * (b / 2) + b % 2
  {
  }

  lemma {:induction false} NoBitsInZero(k: nat)
    ensures !TestBit(0, k)
    decreases k
  {
    if k > 0 {
      NoBitsInZero(k - 1);
    }
  }

  function SetByteBit(b: byte, k: nat): (r: byte)
    requires k < 8
  {
    assert Pow2(8) == 256;
    SetBitBound(b, k, 8);
    SetBit(b, k)
  }

  function DivCeil8(n: nat): nat {
    (n + 7) / 8
  }

  /** The bitmap of `n` columns after the first `i` of them have been marked. */
  function NullBitmap(nulls: seq<bool>, i: nat): (r: bytes)
    requires i <= |nulls|
    ensures |r| == DivCeil8(|nulls|)
  {
    if i == 0 then ZeroBytes(DivCeil8(|nulls|))
    else
      var before := NullBitmap(nulls, i - 1);
      if nulls[i - 1] then before[(i - 1) / 8 := SetByteBit(before[(i - 1) / 8], (i - 1) % 8)] else before
  }

  lemma {:induction false} NullBitmapBits(nulls: seq<bool>, i: nat, k: nat)
    requires i <= |nulls| && k < 8 * DivCeil8(|nulls|)
    ensures TestBit(NullBitmap(nulls, i)[k / 8], k % 8) <==> k < i && nulls[k]
    decreases i
  {
    if i == 0 {
      NoBitsInZero(k % 8);
    } else {
      NullBitmapBits(nulls, i - 1, k);
      SetBitBits(NullBitmap(nulls, i - 1)[(i - 1) / 8], (i - 1) % 8, k % 8);
      assert k == k / 8 * 8 + k % 8 && i - 1 == (i - 1) / 8 * 8 + (i - 1) % 8;
    }
  }
}
