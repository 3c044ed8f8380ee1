/** Column types, column values and their comparison, table schemas and rows. */
module Values {
  import opened Basics
  import opened Bytes
  import opened Floats
  import Decimal

  // ---------------------------------------------------------------------------------------------
  // Text: a Rust `String` is a well-formed UTF-8 byte sequence (table 3-7 of the Unicode Standard).

  predicate Continuation(b: byte) {
    0x80 <= b <= 0xBF
  }

  /** Length of the well-formed sequence that `s` starts with, or 0. */
  function Utf8Unit(s: bytes): (n: nat)
    ensures n <= |s|
  {
    if |s| >= 1 && s[0] <= 0x7F then 1
    else if |s| >= 2 && 0xC2 <= s[0] <= 0xDF && Continuation(s[1]) then 2
    else if |s| >= 3 && 0xE0 <= s[0] <= 0xEF && Continuation(s[1]) && Continuation(s[2])
      && (s[0] == 0xE0 ==> s[1] >= 0xA0) && (s[0] == 0xED ==> s[1] <= 0x9F) then 3
    else if |s| >= 4 && 0xF0 <= s[0] <= 0xF4 && Continuation(s[1]) && Continuation(s[2]) && Continuation(s[3])
      && (s[0] == 0xF0 ==> s[1] >= 0x90) && (s[0] == 0xF4 ==> s[1] <= 0x8F) then 4
    else 0
  }

  predicate ValidUtf8(s: bytes) {
    s == [] || (Utf8Unit(s) > 0 && ValidUtf8(s[Utf8Unit(s)..]))
  }

  type text = s: bytes | ValidUtf8(s)

  // ---------------------------------------------------------------------------------------------

  datatype MySqlIntKind = Tiny | Small | Medium | Int | Big

  datatype DataType =
    | Int16Type
    | Int32Type
    | Int64Type
    | MySqlInt(kind: MySqlIntKind, unsigned: bool)
    | Float32Type
    | Float64Type
    | MySqlFloat
    | MySqlDouble
    | NumericType
    | TextType
    | MySqlText
    | VarChar
    | CharType
    | Binary
    | VarBinary
    | Blob
    | BooleanType
    | Bit
    | Year
    | DateType
    | Time
    | MySqlTime
    | TimeTz
    | Interval
    | TimestampType
    | MySqlDateTime
    | MySqlTimestamp
    | TimestampTzType
    | UuidType
    | ByteaType
    | JsonType
    | JsonbType
    | ArrayType(element: DataType)
    | Domain
    | Enum
    | Set
    | Geometry

  datatype ColumnValue =
    | Null
    | Int16(short: i16)
    | Int32(int32: i32)
    | Int64(int64: i64)
    | Float32(bits32: f32)
    | Float64(bits64: f64)
    | Numeric(str: text)
    | Text(str: text)
    | Boolean(truth: bool)
    | Date(str: text)
    | Timestamp(str: text)
    | TimestampTz(str: text)
    | Uuid(str: text)
    | Bytea(raw: bytes)
    | Json(str: text)
    | Jsonb(str: text)
    | Array(items: seq<ColumnValue>)

  /** The derived `PartialEq`: structural, except that floats compare as numbers. */
  predicate ValueEq(a: ColumnValue, b: ColumnValue)
    decreases a
  {
    match (a, b)
    case (Float32(x), Float32(y)) => !IsNaN32(x) && !IsNaN32(y) && Value32(x) == Value32(y)
    case (Float64(x), Float64(y)) => !IsNaN64(x) && !IsNaN64(y) && Value64(x) == Value64(y)
    case (Array(xs), Array(ys)) => |xs| == |ys| && forall i :: 0 <= i < |xs| ==> ValueEq(xs[i], ys[i])
    case _ => a == b
  }

  function CmpF32(a: f32, b: f32): Option<Ordering> {
    if IsNaN32(a) || IsNaN32(b) then None else Some(CompareInt(Value32(a), Value32(b)))
  }

  function CmpF64(a: f64, b: f64): Option<Ordering> {
    if IsNaN64(a) || IsNaN64(b) then None else Some(CompareInt(Value64(a), Value64(b)))
  }

  function CmpBool(a: bool, b: bool): Ordering {
    if a == b then Equal else if b then Less else Greater
  }

  /** `PartialOrd for ColumnValue`. */
  function PartialCmp(a: ColumnValue, b: ColumnValue): Option<Ordering> {
    match (a, b)
    case (Int16(x), Int16(y)) => Some(CompareInt(x, y))
    case (Int16(x), Int32(y)) => Some(CompareInt(x, y))
    case (Int32(x), Int16(y)) => Some(CompareInt(x, y))
    case (Int16(x), Int64(y)) => Some(CompareInt(x, y))
    case (Int64(x), Int16(y)) => Some(CompareInt(x, y))
    case (Int32(x), Int32(y)) => Some(CompareInt(x, y))
    case (Int64(x), Int64(y)) => Some(CompareInt(x, y))
    case (Int32(x), Int64(y)) => Some(CompareInt(x, y))
    case (Int64(x), Int32(y)) => Some(CompareInt(x, y))
    case (Float32(x), Float32(y)) => CmpF32(x, y)
    case (Float64(x), Float64(y)) => CmpF64(x, y)
    case (Float32(x), Float64(y)) => CmpF64(Widen(x), y)
    case (Float64(x), Float32(y)) => CmpF64(x, Widen(y))
    case (Int16(x), Float32(y)) => CmpF32(IntToF32(x), y)
    case (Float32(x), Int16(y)) => CmpF32(x, IntToF32(y))
    case (Int16(x), Float64(y)) => CmpF64(IntToF64(x), y)
    case (Float64(x), Int16(y)) => CmpF64(x, IntToF64(y))
    case (Int32(x), Float32(y)) => CmpF32(IntToF32(x), y)
    case (Float32(x), Int32(y)) => CmpF32(x, IntToF32(y))
    case (Int64(x), Float64(y)) => CmpF64(IntToF64(x), y)
    case (Float64(x), Int64(y)) => CmpF64(x, IntToF64(y))
    case (Numeric(x), Numeric(y)) => Some(Decimal.NumericCmp(x, y))
    case (Text(x), Text(y)) => Some(Decimal.CmpBytes(x, y))
    case (Boolean(x), Boolean(y)) => Some(CmpBool(x, y))
    case (Date(x), Date(y)) => Some(Decimal.CmpBytes(x, y))
    case (Timestamp(x), Timestamp(y)) => Some(Decimal.CmpBytes(x, y))
    case (TimestampTz(x), TimestampTz(y)) => Some(Decimal.CmpBytes(x, y))
    case (Uuid(x), Uuid(y)) => Some(Decimal.CmpBytes(x, y))
    case (Bytea(x), Bytea(y)) => Some(Decimal.CmpBytes(x, y))
    case _ => None
  }

  // ---------------------------------------------------------------------------------------------

  datatype ColumnSchema = ColumnSchema(columnId: u32, name: string, dataType: DataType, primaryKey: bool)

  datatype TableSchema = TableSchema(
    tableId: u32,
    schemaVersion: u32,
    tableEpoch: u64,
    primaryKey: string,
    columns: seq<ColumnSchema>)

  type RowMap = map<string, ColumnValue>

  predicate DistinctNames(columns: seq<ColumnSchema>) {
    forall i, j :: 0 <= i < j < |columns| ==> columns[i].name != columns[j].name
  }

  predicate DistinctIds(columns: seq<ColumnSchema>) {
    forall i, j :: 0 <= i < j < |columns| ==> columns[i].columnId != columns[j].columnId
  }

  /** `row.get(name).unwrap_or(Null)`. */
  function RowValue(row: RowMap, name: string): ColumnValue {
    if name in row then row[name] else Null
  }

  /** Position of the first column with the primary key's name. */
  function PrimaryKeyIndex(columns: seq<ColumnSchema>, name: string): (r: Option<nat>)
    ensures r.Some? ==> r.value < |columns| && columns[r.value].name == name
    ensures r.None? ==> forall i :: 0 <= i < |columns| ==> columns[i].name != name
  {
    if columns == [] then None
    else if columns[0].name == name then Some(0)
    else
      match PrimaryKeyIndex(columns[1..], name)
      case None => None
      case Some(i) => Some(i + 1)
  }

  /** `pk_data_type`: the flagged column's type, or the internal row id type. */
  function PkDataType(columns: seq<ColumnSchema>): DataType {
    if columns == [] then Int64Type
    else if columns[0].primaryKey then columns[0].dataType
    else PkDataType(columns[1..])
  }

  predicate IntegerType(t: DataType) {
    t == Int16Type || t == Int32Type || t == Int64Type
  }

  /** The value is of the variant that an integer column of type `t` stores. */
  predicate OwnVariant(t: DataType, v: ColumnValue) {
    (t == Int16Type && v.Int16?) || (t == Int32Type && v.Int32?) || (t == Int64Type && v.Int64?)
  }

  function IntOf(v: ColumnValue): int
    requires v.Int16? || v.Int32? || v.Int64?
  {
    match v
    case Int16(x) => x
    case Int32(x) => x
    case Int64(x) => x
  }
}
