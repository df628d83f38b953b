/**
 * The converter table: for each destination column, a converter chosen by the
 * column's parquet physical type, its parquet converted type and the postgres column
 * type; each converter turns a parquet record field into the value handed to the
 * database, or NULL. A combination the table does not handle is `Unsupported`.
 */
module Converters {
  import opened Wrappers
  import opened Dates

  type i8 = x: int | -0x80 <= x < 0x80
  type i16 = x: int | -0x8000 <= x < 0x8000
  type i32 = x: int | -0x8000_0000 <= x < 0x8000_0000
  type i64 = x: int | -0x8000_0000_0000_0000 <= x < 0x8000_0000_0000_0000
  type u8 = x: int | 0 <= x < 0x100
  type u16 = x: int | 0 <= x < 0x1_0000
  type u32 = x: int | 0 <= x < 0x1_0000_0000
  type u64 = x: int | 0 <= x < 0x1_0000_0000_0000_0000

  /** Parquet physical (storage) types. */
  datatype PhysicalType =
    | BOOLEAN | INT32 | INT64 | INT96 | FLOAT | DOUBLE | BYTE_ARRAY | FIXED_LEN_BYTE_ARRAY

  /** Parquet converted (logical) type annotations. */
  datatype ConvertedType =
    | NONE | UTF8 | MAP | MAP_KEY_VALUE | LIST | ENUM | DECIMAL | DATE
    | TIME_MILLIS | TIME_MICROS | TIMESTAMP_MILLIS | TIMESTAMP_MICROS
    | UINT_8 | UINT_16 | UINT_32 | UINT_64 | INT_8 | INT_16 | INT_32 | INT_64
    | JSON | BSON | INTERVAL

  /**
   * Postgres column types: those the table names, and every other type as `OtherPg`
   * with its OID.
   */
  datatype PgType =
    | BOOL | INT2 | INT4 | INT8 | FLOAT4 | FLOAT8
    | CHAR | BPCHAR | VARCHAR | TEXT | DATE | TIMESTAMP | TIMESTAMPTZ | UNKNOWN | INET | CIDR
    | OtherPg(oid: nat)

  /** A parquet record field. Floating-point values are kept as their bits and never computed with. */
  datatype Field =
    | Null
    | Bool(b: bool)
    | Byte(i8v: i8)
    | Short(i16v: i16)
    | Int(i32v: i32)
    | Long(i64v: i64)
    | UByte(u8v: u8)
    | UShort(u16v: u16)
    | UInt(u32v: u32)
    | ULong(u64v: u64)
    | Float(f32bits: bv32)
    | Double(f64bits: bv64)
    | Decimal(unscaled: seq<bv8>, precision: nat, scale: nat)
    | Str(s: string)
    | Bytes(bytes: seq<bv8>)
    | Date(days: i32)
    | TimestampMillis(millis: i64)
    | TimestampMicros(micros: i64)

  /** The value a converter hands to the database driver: NULL or a native value. */
  datatype SqlValue =
    | SqlNull
    | SqlBool(b: bool)
    | SqlI8(i8v: i8)
    | SqlI16(i16v: i16)
    | SqlI32(i32v: i32)
    | SqlI64(i64v: i64)
    | SqlU32(u32v: u32)
    | SqlF32(f32bits: bv32)
    | SqlF64(f64bits: bv64)
    | SqlText(s: string)
    | SqlDate(date: CivilDate)

  /** The converters of the table. */
  datatype Converter =
    | AlwaysNull      // an unhandled converted type, or DECIMAL into FLOAT4
    | StrAsText       // Str, into a column that accepts text
    | IntAsInt4       // Int into INT4
    | IntAsInt8       // Int widened into INT8
    | ShortAsInt2     // Short into INT2
    | ShortAsInt4     // Short widened into INT4
    | ShortAsInt8     // Short widened into INT8
    | DateAsDate      // Date into DATE
    | DateAsText      // Date rendered `%Y-%m-%d` into VARCHAR, TEXT or BPCHAR
    | PassThrough     // any other physical type: each native field as itself

  /** The outcome of the dispatch: a converter, or a combination left unimplemented. */
  datatype Dispatch = Convert(converter: Converter) | Unsupported

  /** `parquet_date_to_naive_date`: the epoch 1970-01-01 plus that many days. */
  function ParquetDateToNaiveDate(days: i32): (d: CivilDate)
    ensures ValidDate(d) && DaysFromCivil(d) == days
  {
    CivilFromDays(days)
  }

  /** The field variant a converter reads; every other variant becomes NULL. */
  predicate Reads(c: Converter, f: Field)
  {
    match c
    case AlwaysNull => false
    case StrAsText => f.Str?
    case IntAsInt4 | IntAsInt8 => f.Int?
    case ShortAsInt2 | ShortAsInt4 | ShortAsInt8 => f.Short?
    case DateAsDate | DateAsText => f.Date?
    case PassThrough =>
      f.Bool? || f.Byte? || f.Short? || f.Int? || f.Long? || f.UInt? || f.Float? || f.Double? || f.Str?
  }

  /** The integer a field or a value holds, if it holds one. */
  function FieldInt(f: Field): Option<int>
  {
    match f
    case Byte(v) => Some(v)
    case Short(v) => Some(v)
    case Int(v) => Some(v)
    case Long(v) => Some(v)
    case UByte(v) => Some(v)
    case UShort(v) => Some(v)
    case UInt(v) => Some(v)
    case ULong(v) => Some(v)
    case _ => None
  }

  function SqlInt(v: SqlValue): Option<int>
  {
    match v
    case SqlI8(x) => Some(x)
    case SqlI16(x) => Some(x)
    case SqlI32(x) => Some(x)
    case SqlI64(x) => Some(x)
    case SqlU32(x) => Some(x)
    case _ => None
  }

  /** Applies a converter to a field. */
  function Apply(c: Converter, f: Field): SqlValue
  {
    match c
    case AlwaysNull => SqlNull
    case StrAsText => if f.Str? then SqlText(f.s) else SqlNull
    case IntAsInt4 => if f.Int? then SqlI32(f.i32v) else SqlNull
    case IntAsInt8 => if f.Int? then SqlI64(f.i32v) else SqlNull
    case ShortAsInt2 => if f.Short? then SqlI16(f.i16v) else SqlNull
    case ShortAsInt4 => if f.Short? then SqlI32(f.i16v) else SqlNull
    case ShortAsInt8 => if f.Short? then SqlI64(f.i16v) else SqlNull
    case DateAsDate => if f.Date? then SqlDate(ParquetDateToNaiveDate(f.days)) else SqlNull
    case DateAsText => if f.Date? then SqlText(FormatYmd(ParquetDateToNaiveDate(f.days))) else SqlNull
    case PassThrough =>
      match f
      case Bool(b) => SqlBool(b)
      case Byte(x) => SqlI8(x)
      case Short(x) => SqlI16(x)
      case Int(x) => SqlI32(x)
      case Long(x) => SqlI64(x)
      case UInt(x) => SqlU32(x)
      case Float(x) => SqlF32(x)
      case Double(x) => SqlF64(x)
      case Str(s) => SqlText(s)
      case _ => SqlNull
  }

  /**
   * A field the converter does not read, NULL among them, becomes NULL; one it reads
   * gives a value that is not NULL; an integer keeps its value, whatever width it is
   * widened to, and a string is passed on as it is.
   */
  lemma ApplySpec(c: Converter, f: Field)
    ensures !Reads(c, f) ==> Apply(c, f) == SqlNull
    ensures Reads(c, f) ==> Apply(c, f) != SqlNull
    ensures Reads(c, f) && FieldInt(f).Some? ==> SqlInt(Apply(c, f)) == FieldInt(f)
    ensures Reads(c, f) && f.Str? ==> Apply(c, f) == SqlText(f.s)
  {
    match c {
      case AlwaysNull =>
      case StrAsText =>
      case IntAsInt4 =>
      case IntAsInt8 =>
      case ShortAsInt2 =>
      case ShortAsInt4 =>
      case ShortAsInt8 =>
      case DateAsDate =>
      case DateAsText =>
      case PassThrough =>
    }
  }

  /** `pgtype_accepts_str`: the postgres types a string is written to as it is. */
  predicate PgTypeAcceptsStr(pg: PgType)
  {
    pg in {BPCHAR, CHAR, TEXT, PgType.DATE, TIMESTAMP, TIMESTAMPTZ, VARCHAR, UNKNOWN, INET, CIDR}
  }

  function FieldIsDate(pg: PgType): Dispatch
  {
    match pg
    case DATE => Convert(DateAsDate)
    case VARCHAR | TEXT | BPCHAR => Convert(DateAsText)
    case _ => Unsupported
  }

  function FieldIsShort(pg: PgType): Dispatch
  {
    match pg
    case INT2 => Convert(ShortAsInt2)
    case INT4 => Convert(ShortAsInt4)
    case INT8 => Convert(ShortAsInt8)
    case _ => Unsupported
  }

  function FieldIsInt(pg: PgType): Dispatch
  {
    match pg
    case INT4 => Convert(IntAsInt4)
    case INT8 => Convert(IntAsInt8)
    case _ => Unsupported
  }

  function FieldIsStr(pg: PgType): Dispatch
  {
    if PgTypeAcceptsStr(pg) then Convert(StrAsText) else Unsupported
  }

  /** A DECIMAL byte array: FLOAT4 columns get NULL whatever the field; the rest is unimplemented. */
  function FieldIsDecimal(pg: PgType): Dispatch
  {
    if pg == FLOAT4 then Convert(AlwaysNull) else Unsupported
  }

  /** An unannotated or BSON byte array: unimplemented for every column type. */
  function FieldIsBytes(pg: PgType): Dispatch
  {
    Unsupported
  }

  function PInt32(converted: ConvertedType, pg: PgType): Dispatch
  {
    match converted
    case DATE => FieldIsDate(pg)
    case INT_16 => FieldIsShort(pg)
    case NONE | INT_32 => FieldIsInt(pg)
    case _ => Convert(AlwaysNull)
  }

  function PByteArray(converted: ConvertedType, pg: PgType): Dispatch
  {
    match converted
    case UTF8 | ENUM | JSON => FieldIsStr(pg)
    case NONE | BSON => FieldIsBytes(pg)
    case DECIMAL => FieldIsDecimal(pg)
    case _ => Convert(AlwaysNull)
  }

  /** The converter for one column. */
  function Select(physical: PhysicalType, converted: ConvertedType, pg: PgType): Dispatch
  {
    match physical
    case INT32 => PInt32(converted, pg)
    case BYTE_ARRAY => PByteArray(converted, pg)
    case _ => Convert(PassThrough)
  }

  /**
   * Whether a non-NULL value is one the table means for the postgres column: integers of
   * the column's width, a date for DATE, and text for the types `pgtype_accepts_str`
   * lists. Whether the postgres driver then accepts the value is its own affair.
   */
  predicate Fits(v: SqlValue, pg: PgType)
  {
    match v
    case SqlI16(_) => pg == INT2
    case SqlI32(_) => pg == INT4
    case SqlI64(_) => pg == INT8
    case SqlDate(_) => pg == PgType.DATE
    case SqlText(_) => PgTypeAcceptsStr(pg)
    case _ => false
  }

  /**
   * The postgres column types each converter is meant for, stated per converter: the
   * table read from the converter's side. The lemmas below check the table against it.
   */
  predicate ChosenFor(c: Converter, pg: PgType)
  {
    match c
    case AlwaysNull => true
    case StrAsText => PgTypeAcceptsStr(pg)
    case IntAsInt4 | ShortAsInt4 => pg == INT4
    case IntAsInt8 | ShortAsInt8 => pg == INT8
    case ShortAsInt2 => pg == INT2
    case DateAsDate => pg == PgType.DATE
    case DateAsText => pg in {VARCHAR, TEXT, BPCHAR}
    case PassThrough => false
  }

  /**
   * Consistency of the table: the INT32 and BYTE_ARRAY arms only pick a converter for a
   * column type it is meant for.
   */
  lemma TypedSelectChosenFor(physical: PhysicalType, converted: ConvertedType, pg: PgType)
    requires physical == INT32 || physical == BYTE_ARRAY
    requires Select(physical, converted, pg).Convert?
    ensures ChosenFor(Select(physical, converted, pg).converter, pg)
  {
    if physical == INT32 {
      match converted {
        case DATE =>
        case INT_16 =>
        case NONE =>
        case INT_32 =>
        case _ =>
      }
    }
  }

  /**
   * A typed converter gives NULL or a value `Fits` admits for a column type it is meant
   * for (for text, a type `pgtype_accepts_str` lists).
   */
  lemma ChosenConverterFits(c: Converter, pg: PgType, f: Field)
    requires ChosenFor(c, pg)
    ensures Apply(c, f) == SqlNull || Fits(Apply(c, f), pg)
  {
  }

  /**
   * For INT32 and BYTE_ARRAY columns the table only hands out converters whose values
   * are NULL or admitted by `Fits` for the column's type.
   */
  lemma TypedConvertersFit(physical: PhysicalType, converted: ConvertedType, pg: PgType, f: Field)
    requires physical == INT32 || physical == BYTE_ARRAY
    requires Select(physical, converted, pg).Convert?
    ensures Apply(Select(physical, converted, pg).converter, f) == SqlNull
         || Fits(Apply(Select(physical, converted, pg).converter, f), pg)
  {
    TypedSelectChosenFor(physical, converted, pg);
    ChosenConverterFits(Select(physical, converted, pg).converter, pg, f);
  }

  /** INT32 with DATE: the day count becomes the epoch plus that many days. */
  lemma Int32DateDispatch(pg: PgType, days: i32)
    requires pg == PgType.DATE
    ensures Select(INT32, ConvertedType.DATE, pg) == Convert(DateAsDate)
    ensures Apply(DateAsDate, Date(days)) == SqlDate(CivilFromDays(days))
    ensures DaysFromCivil(Apply(DateAsDate, Date(days)).date) == days
  {
  }

  /** INT32 with DATE into a text column: the ISO 8601 rendering, which reads back as the date. */
  lemma Int32DateAsTextDispatch(pg: PgType, days: i32)
    requires pg == VARCHAR || pg == TEXT || pg == BPCHAR
    requires 0 <= CivilFromDays(days).year <= 9999
    ensures Select(INT32, ConvertedType.DATE, pg) == Convert(DateAsText)
    ensures Apply(DateAsText, Date(days)).SqlText?
    ensures |Apply(DateAsText, Date(days)).s| == 10
    ensures ParseYmd(Apply(DateAsText, Date(days)).s) == Some(CivilFromDays(days))
  {
    FormatYmdRoundTrip(CivilFromDays(days));
  }

  /** INT32 with DATE into any other column type is unsupported. */
  lemma Int32DateElsewhereUnsupported(pg: PgType)
    requires pg !in {PgType.DATE, VARCHAR, TEXT, BPCHAR}
    ensures Select(INT32, ConvertedType.DATE, pg) == Unsupported
  {
  }

  /**
   * INT32 with NONE or INT_32 reads `Int`: INT4 gets the same i32, INT8 the equal i64;
   * any other column type is unsupported.
   */
  lemma Int32IntDispatch(converted: ConvertedType, pg: PgType, v: i32)
    requires converted == NONE || converted == INT_32
    ensures pg == INT4 ==> Select(INT32, converted, pg).Convert? && Apply(Select(INT32, converted, pg).converter, Int(v)) == SqlI32(v)
    ensures pg == INT8 ==> Select(INT32, converted, pg).Convert? && Apply(Select(INT32, converted, pg).converter, Int(v)) == SqlI64(v)
    ensures pg != INT4 && pg != INT8 ==> Select(INT32, converted, pg) == Unsupported
  {
  }

  /** INT32 with INT_16 reads `Short` and widens it, keeping its value, into INT2, INT4 or INT8. */
  lemma Int32ShortDispatch(pg: PgType, v: i16)
    ensures pg in {INT2, INT4, INT8} <==> Select(INT32, INT_16, pg).Convert?
    ensures Select(INT32, INT_16, pg).Convert? ==>
      SqlInt(Apply(Select(INT32, INT_16, pg).converter, Short(v))) == Some(v as int)
  {
  }

  /** INT32 with any other converted type: every field becomes NULL. */
  lemma Int32OtherAlwaysNull(converted: ConvertedType, pg: PgType, f: Field)
    requires converted !in {ConvertedType.DATE, INT_16, NONE, INT_32}
    ensures Select(INT32, converted, pg).Convert?
    ensures Apply(Select(INT32, converted, pg).converter, f) == SqlNull
  {
  }

  /**
   * BYTE_ARRAY: UTF8, ENUM and JSON pass strings through to columns that accept text;
   * NONE and BSON are unsupported; DECIMAL gives NULL for FLOAT4 (even for a Decimal
   * field) and is unsupported otherwise; any other annotation gives NULL.
   */
  lemma ByteArrayDispatch(converted: ConvertedType, pg: PgType, f: Field)
    ensures converted in {UTF8, ENUM, JSON} ==>
      (Select(BYTE_ARRAY, converted, pg).Convert? <==> PgTypeAcceptsStr(pg))
      && (PgTypeAcceptsStr(pg) && f.Str? ==> Apply(Select(BYTE_ARRAY, converted, pg).converter, f) == SqlText(f.s))
    ensures converted in {NONE, BSON} ==> Select(BYTE_ARRAY, converted, pg) == Unsupported
    ensures converted == DECIMAL ==>
      (Select(BYTE_ARRAY, converted, pg).Convert? <==> pg == FLOAT4)
      && (pg == FLOAT4 ==> Apply(Select(BYTE_ARRAY, converted, pg).converter, f) == SqlNull)
    ensures converted !in {UTF8, ENUM, JSON, NONE, BSON, DECIMAL} ==>
      Select(BYTE_ARRAY, converted, pg).Convert?
      && Apply(Select(BYTE_ARRAY, converted, pg).converter, f) == SqlNull
  {
  }

  /**
   * Every other physical type passes each listed native variant through as its own
   * value, of its own width (an i8 as an i8, a u32 as a u32, and so on); NULL and every
   * other variant become NULL.
   */
  lemma OtherPhysicalPassThrough(physical: PhysicalType, converted: ConvertedType, pg: PgType, f: Field)
    requires physical != INT32 && physical != BYTE_ARRAY
    ensures Select(physical, converted, pg) == Convert(PassThrough)
    ensures f.Bool? ==> Apply(PassThrough, f) == SqlBool(f.b)
    ensures f.Float? ==> Apply(PassThrough, f) == SqlF32(f.f32bits)
    ensures f.Double? ==> Apply(PassThrough, f) == SqlF64(f.f64bits)
    ensures f.Str? ==> Apply(PassThrough, f) == SqlText(f.s)
    ensures f.Byte? ==> Apply(PassThrough, f) == SqlI8(f.i8v)
    ensures f.Short? ==> Apply(PassThrough, f) == SqlI16(f.i16v)
    ensures f.Int? ==> Apply(PassThrough, f) == SqlI32(f.i32v)
    ensures f.Long? ==> Apply(PassThrough, f) == SqlI64(f.i64v)
    ensures f.UInt? ==> Apply(PassThrough, f) == SqlU32(f.u32v)
    ensures (f.Null? || f.UByte? || f.UShort? || f.ULong? || f.Decimal? || f.Bytes? || f.Date?
             || f.TimestampMillis? || f.TimestampMicros?) ==> Apply(PassThrough, f) == SqlNull
  {
  }

  /** Why `build` stopped: the column at this index has no implemented converter. */
  datatype BuildError = UnsupportedColumn(index: nat)

  /**
   * `build`: one converter per (physical, converted) pair, in order, chosen with the
   * postgres type at the same index; it stops at the first unsupported column.
   */
  method Build(pqTypeData: seq<(PhysicalType, ConvertedType)>, dbColTypes: seq<PgType>)
    returns (r: Result<seq<Converter>, BuildError>)
    requires |pqTypeData| <= |dbColTypes|
    ensures r.Success? <==>
      forall i :: 0 <= i < |pqTypeData| ==> Select(pqTypeData[i].0, pqTypeData[i].1, dbColTypes[i]).Convert?
    ensures r.Success? ==>
      && |r.value| == |pqTypeData|
      && forall i :: 0 <= i < |pqTypeData| ==>
           Select(pqTypeData[i].0, pqTypeData[i].1, dbColTypes[i]) == Convert(r.value[i])
    ensures r.Failure? ==>
      var k := r.error.index;
      && k < |pqTypeData|
      && Select(pqTypeData[k].0, pqTypeData[k].1, dbColTypes[k]) == Unsupported
      && forall i :: 0 <= i < k ==> Select(pqTypeData[i].0, pqTypeData[i].1, dbColTypes[i]).Convert?
  {
    var converters: seq<Converter> := [];
    var i := 0;
    while i < |pqTypeData|
      invariant 0 <= i <= |pqTypeData|
      invariant |converters| == i
      invariant forall j :: 0 <= j < i ==>
        Select(pqTypeData[j].0, pqTypeData[j].1, dbColTypes[j]) == Convert(converters[j])
    {
      var (physical, converted) := pqTypeData[i];
      var dispatch := Select(physical, converted, dbColTypes[i]);
      if dispatch.Unsupported? {
        return Failure(UnsupportedColumn(i));
      }
      converters := converters + [dispatch.converter];
      i := i + 1;
    }
    return Success(converters);
  }
}
