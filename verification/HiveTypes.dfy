/** Arrow types as Hive type strings and back, and the split of a schema into data and partition
    columns. */
module HiveTypes {
  import opened Wrappers
  import opened Manifests
  import opened Strings

  type u8 = n: int | 0 <= n < 256
  type i8 = n: int | -128 <= n < 128

  datatype TimeUnit = Second | Millisecond | Microsecond | Nanosecond

  /** `Other` stands for every type with no Hive spelling (lists, structs, maps and the rest). */
  datatype DataType =
    | Int64 | Int32 | Int16 | Int8 | Float64 | Float32
    | Utf8 | LargeUtf8 | Boolean | Date32 | Date64
    | Timestamp(unit: TimeUnit, tz: Option<string>)
    | Binary | LargeBinary
    | Decimal128(p: u8, s: i8)
    | Other(kind: nat)

  datatype Field = Field(name: string, dataType: DataType, nullable: bool)
  type Schema = seq<Field>

  // ---- decimal numerals

  function PrintNat(n: nat): (s: string)
    ensures s != ""
  {
    if n < 10 then [Digit(n)] else PrintNat(n / 10) + [Digit(n % 10)]
  }

  function PrintInt(n: int): (s: string)
    ensures s != ""
  {
    if n < 0 then "-" + PrintNat(-n) else PrintNat(n)
  }

  /** One or more digits. */
  function ParseNat(s: string): Option<nat> {
    if s == "" then None else ParseDigits(s)
  }

  function ParseU8(s: string): Option<u8> {
    match ParseNat(if s != "" && s[0] == '+' then s[1..] else s)
    case None => None
    case Some(n) => if n < 256 then Some(n) else None
  }

  function ParseI8(s: string): Option<i8> {
    if s != "" && s[0] == '-' then
      match ParseNat(s[1..])
      case None => None
      case Some(n) => if n <= 128 then Some(-(n as int)) else None
    else
      match ParseNat(if s != "" && s[0] == '+' then s[1..] else s)
      case None => None
      case Some(n) => if n < 128 then Some(n) else None
  }

  // ---- Hive to Arrow

  /** What is inside `decimal(...)`: a precision, and optionally a scale. */
  function ParseDecimalArgs(args: string): Option<(u8, i8)> {
    var parts := Split(args, ',');
    match ParseU8(Trim(parts[0]))
    case None => None
    case Some(p) =>
      if |parts| == 1 then (if p == 0 then None else Some((p, 0)))
      else
        match ParseI8(Trim(parts[1]))
        case None => None
        case Some(s) => if |parts| > 2 || p == 0 then None else Some((p, s))
  }

  function ParseDecimal(t: string, prefix: string): Option<DataType>
    requires StartsWith(t, prefix) && |t| > |prefix| && t[|t| - 1] == ')'
  {
    match ParseDecimalArgs(t[|prefix|..|t| - 1])
    case None => None
    case Some((p, s)) => Some(Decimal128(p, s))
  }

  function ScalarType(t: string): Option<DataType> {
    if t == "bigint" || t == "long" then Some(Int64)
    else if t == "int" || t == "integer" then Some(Int32)
    else if t == "smallint" || t == "short" then Some(Int16)
    else if t == "tinyint" || t == "byte" then Some(Int8)
    else if t == "double" then Some(Float64)
    else if t == "float" || t == "real" then Some(Float32)
    else if t == "string" || t == "varchar" || t == "char" || t == "text" then Some(Utf8)
    else if t == "boolean" || t == "bool" then Some(Boolean)
    else if t == "date" then Some(Date32)
    else if t == "timestamp" || t == "timestamp_ntz" then Some(Timestamp(Microsecond, None))
    else if t == "timestamp with local time zone" then Some(Timestamp(Microsecond, Some("UTC")))
    else if t == "binary" then Some(Binary)
    else None
  }

  function ParameterizedType(t: string): Option<DataType> {
    if StartsWith(t, "varchar(") || StartsWith(t, "char(") then Some(Utf8)
    else if StartsWith(t, "decimal(") && |t| > 8 && t[|t| - 1] == ')' then ParseDecimal(t, "decimal(")
    else if StartsWith(t, "numeric(") && |t| > 8 && t[|t| - 1] == ')' then ParseDecimal(t, "numeric(")
    else if t == "decimal" || t == "numeric" then Some(Decimal128(10, 0))
    else None
  }

  function HiveToArrow(ty: string): Option<DataType> {
    var t := Lower(Trim(ty));
    match ScalarType(t)
    case Some(dt) => Some(dt)
    case None => ParameterizedType(t)
  }

  // ---- Arrow to Hive

  function DecimalName(p: u8, s: i8): string {
    "decimal(" + PrintNat(p) + "," + PrintInt(s) + ")"
  }

  function ArrowToHive(dt: DataType): Option<string> {
    match dt
    case Int64 => Some("bigint")
    case Int32 => Some("int")
    case Int16 => Some("smallint")
    case Int8 => Some("tinyint")
    case Float64 => Some("double")
    case Float32 => Some("float")
    case Utf8 => Some("string")
    case LargeUtf8 => Some("string")
    case Boolean => Some("boolean")
    case Date32 => Some("date")
    case Date64 => Some("date")
    case Timestamp(_, Some(_)) => Some("timestamp with local time zone")
    case Timestamp(_, None) => Some("timestamp")
    case Binary => Some("binary")
    case LargeBinary => Some("binary")
    case Decimal128(p, s) => Some(DecimalName(p, s))
    case Other(_) => None
  }

  /** The type a mappable type comes back as. */
  function Normal(dt: DataType): DataType {
    match dt
    case LargeUtf8 => Utf8
    case Date64 => Date32
    case Timestamp(_, Some(_)) => Timestamp(Microsecond, Some("UTC"))
    case Timestamp(_, None) => Timestamp(Microsecond, None)
    case LargeBinary => Binary
    case _ => dt
  }

  /** Survives print-then-parse: it has a Hive name, and is not a decimal of precision zero. */
  predicate Recoverable(dt: DataType) {
    !dt.Other? && !(dt.Decimal128? && dt.p == 0)
  }

  // ---- numerals read back

  lemma {:induction false} NatReadsBack(n: nat)
    ensures ParseDigits(PrintNat(n)) == Some(n)
    ensures forall c <- PrintNat(n) :: '0' <= c <= '9'
  {
    var s := PrintNat(n);
    if n < 10 {
      assert s[..|s| - 1] == "";
    } else {
      NatReadsBack(n / 10);
      assert s[..|s| - 1] == PrintNat(n / 10);
    }
  }

  lemma U8ReadsBack(n: u8)
    ensures ParseU8(PrintNat(n)) == Some(n)
  {
    NatReadsBack(n);
    assert PrintNat(n)[0] in PrintNat(n);
  }

  lemma I8ReadsBack(n: i8)
    ensures ParseI8(PrintInt(n)) == Some(n)
    ensures forall c <- PrintInt(n) :: '0' <= c <= '9' || c == '-'
  {
    var s := PrintInt(n);
    NatReadsBack(if n < 0 then -(n as int) else n);
    if n < 0 {
      assert s[1..] == PrintNat(-(n as int));
    } else {
      assert s[0] in s;
    }
  }

  lemma ArgsReadBack(a: string, b: string, p: u8, s: i8)
    requires ParseU8(a) == Some(p) && ParseI8(b) == Some(s)
    requires ',' !in a && ',' !in b && Trim(a) == a && Trim(b) == b
    ensures ParseDecimalArgs(a + "," + b) == if p == 0 then None else Some((p, s))
  {
    SplitFirst(a, b, ',');
    SplitNone(b, ',');
  }

  lemma NumeralsAreTrim(s: string)
    requires s != "" && forall c <- s :: '0' <= c <= '9' || c == '-'
    ensures Trim(s) == s && ',' !in s
  {
    assert s[0] in s && s[|s| - 1] in s;
  }

  lemma DecimalArgsReadBack(p: u8, s: i8)
    ensures ParseDecimalArgs(PrintNat(p) + "," + PrintInt(s)) == if p == 0 then None else Some((p, s))
  {
    U8ReadsBack(p);
    NatReadsBack(p);
    I8ReadsBack(s);
    NumeralsAreTrim(PrintNat(p));
    NumeralsAreTrim(PrintInt(s));
    ArgsReadBack(PrintNat(p), PrintInt(s), p, s);
  }

  predicate NoUpper(s: string) {
    forall i :: 0 <= i < |s| ==> !('A' <= s[i] <= 'Z')
  }

  lemma Wrapped(head: string, args: string, t: string)
    requires t == head + args + ")" && |head| > 0 && !IsSpace(head[0])
    requires NoUpper(head) && NoUpper(args)
    ensures |t| == |head| + |args| + 1 && t[0] == head[0] && t[|t| - 1] == ')'
    ensures t[..|head|] == head && t[|head|..|t| - 1] == args
    ensures Trim(t) == t && Lower(t) == t
  {
    assert NoUpper(t);
    assert Lower(t) == t;
  }

  lemma ArgsNoUpper(p: u8, s: i8)
    ensures NoUpper(PrintNat(p) + "," + PrintInt(s))
  {
    var a, b := PrintNat(p), PrintInt(s);
    NatReadsBack(p);
    I8ReadsBack(s);
    assert forall i :: 0 <= i < |a| ==> a[i] in a;
    assert forall i :: 0 <= i < |b| ==> b[i] in b;
  }

  lemma DecimalNameShape(p: u8, s: i8)
    ensures var t := DecimalName(p, s);
            && Lower(t) == t && Trim(t) == t
            && |t| > 9 && t[0] == 'd' && StartsWith(t, "decimal(") && t[|t| - 1] == ')'
            && t[8..|t| - 1] == PrintNat(p) + "," + PrintInt(s)
  {
    var t, args := DecimalName(p, s), PrintNat(p) + "," + PrintInt(s);
    ArgsNoUpper(p, s);
    assert t == "decimal(" + args + ")";
    Wrapped("decimal(", args, t);
  }

  lemma DecimalIsNotScalar(t: string)
    requires |t| > 9 && t[0] == 'd'
    ensures ScalarType(t) == None
  {
  }

  lemma DecimalReadsBack(p: u8, s: i8)
    ensures HiveToArrow(DecimalName(p, s)) == if p == 0 then None else Some(Decimal128(p, s))
  {
    var t := DecimalName(p, s);
    DecimalNameShape(p, s);
    DecimalIsNotScalar(t);
    DecimalArgsReadBack(p, s);
    assert "varchar("[0] == 'v' && "char("[0] == 'c';
    assert !StartsWith(t, "varchar(") && !StartsWith(t, "char(");
  }

  /** Lower-case letters with single spaces inside. */
  predicate Plain(t: string) {
    && (forall i :: 0 <= i < |t| ==> 'a' <= t[i] <= 'z' || t[i] == ' ')
    && t != "" && t[0] != ' ' && t[|t| - 1] != ' '
  }

  lemma NameReadsBack(t: string, dt: DataType)
    requires Plain(t) && ScalarType(t) == Some(dt)
    ensures HiveToArrow(t) == Some(dt)
  {
    assert Trim(t) == t;
    LowerIsLower(t);
  }

  /** The name of a type is plain and stands for its normal form. */
  ghost predicate IsNamed(dt: DataType) {
    var name := ArrowToHive(dt);
    name.Some? && Plain(name.value) && ScalarType(name.value) == Some(Normal(dt))
  }

  lemma IntegersAreNamed(dt: DataType)
    requires dt.Int64? || dt.Int32? || dt.Int16? || dt.Int8?
    ensures IsNamed(dt)
  {
  }

  lemma FloatsAreNamed(dt: DataType)
    requires dt.Float64? || dt.Float32?
    ensures IsNamed(dt)
  {
  }

  lemma TextIsNamed(dt: DataType)
    requires dt.Utf8? || dt.LargeUtf8?
    ensures IsNamed(dt)
  {
  }

  lemma FlagsAreNamed()
    ensures IsNamed(Boolean)
  {
  }

  lemma DatesAreNamed(dt: DataType)
    requires dt.Date32? || dt.Date64?
    ensures IsNamed(dt)
  {
  }

  lemma BytesAreNamed(dt: DataType)
    requires dt.Binary? || dt.LargeBinary?
    ensures IsNamed(dt)
  {
    assert "binary"[5] == 'y' && "bigint"[5] == 't' && "double"[5] == 'e' && "string"[5] == 'g';
  }

  lemma WallClockIsNamed(unit: TimeUnit)
    ensures IsNamed(Timestamp(unit, None))
  {
  }

  lemma InstantsAreNamed(unit: TimeUnit, tz: string)
    ensures IsNamed(Timestamp(unit, Some(tz)))
  {
  }

  lemma EveryNameIsNamed(dt: DataType)
    requires !dt.Decimal128? && !dt.Other?
    ensures IsNamed(dt)
  {
    hide IsNamed;
    match dt
    case Int64 => IntegersAreNamed(dt);
    case Int32 => IntegersAreNamed(dt);
    case Int16 => IntegersAreNamed(dt);
    case Int8 => IntegersAreNamed(dt);
    case Float64 => FloatsAreNamed(dt);
    case Float32 => FloatsAreNamed(dt);
    case Utf8 => TextIsNamed(dt);
    case LargeUtf8 => TextIsNamed(dt);
    case Boolean => FlagsAreNamed();
    case Date32 => DatesAreNamed(dt);
    case Date64 => DatesAreNamed(dt);
    case Timestamp(unit, None) => WallClockIsNamed(unit);
    case Timestamp(unit, Some(tz)) => InstantsAreNamed(unit, tz);
    case Binary => BytesAreNamed(dt);
    case LargeBinary => BytesAreNamed(dt);
  }

  /** Print-then-parse gives the normal form of exactly the recoverable types. */
  lemma TypeRoundTrip(dt: DataType)
    requires ArrowToHive(dt).Some?
    ensures HiveToArrow(ArrowToHive(dt).value) == if Recoverable(dt) then Some(Normal(dt)) else None
  {
    if dt.Decimal128? {
      hide HiveToArrow, DecimalName;
      DecimalReadsBack(dt.p, dt.s);
    } else {
      OthersHaveNoName(dt);
      hide HiveToArrow, ScalarType, Plain, ArrowToHive, Normal;
      EveryNameIsNamed(dt);
      NameReadsBack(ArrowToHive(dt).value, Normal(dt));
    }
  }

  lemma OthersHaveNoName(dt: DataType)
    ensures dt.Other? <==> ArrowToHive(dt).None?
  {
  }

  lemma NormalTwice(dt: DataType)
    ensures Normal(Normal(dt)) == Normal(dt)
    ensures Recoverable(dt) <==> Recoverable(Normal(dt))
  {
  }

  /** The normal form is its own normal form, and a decimal is normal at every precision and scale. */
  lemma NormalIsIdempotent(dt: DataType)
    requires Recoverable(dt)
    ensures HiveToArrow(ArrowToHive(Normal(dt)).value) == Some(Normal(dt))
    ensures dt.Decimal128? ==> Normal(dt) == dt
  {
    NormalTwice(dt);
    TypeRoundTrip(Normal(dt));
  }

  // ---- schemas and columns

  predicate Mappable(schema: Schema) {
    forall f <- schema :: ArrowToHive(f.dataType).Some?
  }

  /** The fields that are, or are not, named in `partitions`, in schema order. */
  function Select(schema: Schema, partitions: seq<string>, partition: bool): (r: Schema)
    ensures forall f <- r :: f in schema
  {
    if schema == [] then []
    else
      var front, last := Select(schema[..|schema| - 1], partitions, partition), schema[|schema| - 1];
      if (last.name in partitions) == partition then front + [last] else front
  }

  function ToColumns(schema: Schema): (r: HiveColumns)
    requires Mappable(schema)
    ensures |r| == |schema|
    ensures forall i :: 0 <= i < |r| ==> r[i] == (schema[i].name, ArrowToHive(schema[i].dataType).value)
  {
    if schema == [] then []
    else
      var last := schema[|schema| - 1];
      ToColumns(schema[..|schema| - 1]) + [(last.name, ArrowToHive(last.dataType).value)]
  }

  /** All or nothing: a schema when there is at least one column and every type string is known. */
  function ColumnsToSchema(columns: HiveColumns): Option<Schema> {
    if columns == [] || exists c <- columns :: HiveToArrow(c.1).None? then None
    else Some(seq(|columns|, i requires 0 <= i < |columns| =>
                assert columns[i] in columns;
                Field(columns[i].0, HiveToArrow(columns[i].1).value, true)))
  }

  /** The fields as a catalog gives them back. */
  function Recovered(schema: Schema): (r: Schema)
    ensures |r| == |schema|
    ensures forall i :: 0 <= i < |r| ==> r[i] == Field(schema[i].name, Normal(schema[i].dataType), true)
  {
    seq(|schema|, i requires 0 <= i < |schema| => Field(schema[i].name, Normal(schema[i].dataType), true))
  }

  /** Split a schema into data and partition columns, refusing a type that has no Hive name. */
  method SchemaToColumns(schema: Schema, partitions: seq<string>) returns (r: Result<(HiveColumns, HiveColumns)>)
    ensures r.Ok? <==> Mappable(schema)
    ensures r.Ok? ==> r.value == (ToColumns(Select(schema, partitions, false)), ToColumns(Select(schema, partitions, true)))
    ensures r.Err? ==> r.error == Unsupported
  {
    var data: HiveColumns, parts: HiveColumns := [], [];
    for i := 0 to |schema|
      invariant Mappable(schema[..i])
      invariant data == ToColumns(Select(schema[..i], partitions, false))
      invariant parts == ToColumns(Select(schema[..i], partitions, true))
    {
      var field := schema[i];
      var ty := ArrowToHive(field.dataType);
      if ty.None? {
        assert field in schema;
        return Err(Unsupported);
      }
      assert schema[..i + 1][..i] == schema[..i];
      if field.name in partitions {
        SelectSnoc(schema, partitions, true, i);
        parts := parts + [(field.name, ty.value)];
      } else {
        SelectSnoc(schema, partitions, false, i);
        data := data + [(field.name, ty.value)];
      }
    }
    assert schema[..|schema|] == schema;
    r := Ok((data, parts));
  }

  lemma SelectSnoc(schema: Schema, partitions: seq<string>, partition: bool, i: nat)
    requires i < |schema| && Mappable(schema[..i + 1])
    requires (schema[i].name in partitions) == partition
    ensures Select(schema[..i + 1], partitions, partition) == Select(schema[..i], partitions, partition) + [schema[i]]
    ensures ToColumns(Select(schema[..i + 1], partitions, partition)) ==
            ToColumns(Select(schema[..i], partitions, partition)) + [(schema[i].name, ArrowToHive(schema[i].dataType).value)]
    ensures Select(schema[..i + 1], partitions, !partition) == Select(schema[..i], partitions, !partition)
  {
    assert schema[..i + 1][..i] == schema[..i];
    var front := Select(schema[..i], partitions, partition);
    assert (front + [schema[i]])[..|front|] == front;
  }

  /** Rebuild a schema from columns. */
  method SchemaFromColumns(columns: HiveColumns) returns (r: Option<Schema>)
    ensures r == ColumnsToSchema(columns)
  {
    var fields: Schema := [];
    for i := 0 to |columns|
      invariant |fields| == i
      invariant forall j :: 0 <= j < i ==>
                  HiveToArrow(columns[j].1).Some? && fields[j] == Field(columns[j].0, HiveToArrow(columns[j].1).value, true)
    {
      var dt := HiveToArrow(columns[i].1);
      if dt.None? {
        assert columns[i] in columns;
        return None;
      }
      fields := fields + [Field(columns[i].0, dt.value, true)];
    }
    if fields == [] {
      return None;
    }
    assert forall c <- columns :: HiveToArrow(c.1).Some?;
    assert ColumnsToSchema(columns).value == fields;
    r := Some(fields);
  }

  lemma ColumnsReadBack(schema: Schema)
    requires Mappable(schema)
    ensures ColumnsToSchema(ToColumns(schema)) ==
            if schema != [] && AllRecoverable(schema) then Some(Recovered(schema)) else None
  {
    hide HiveToArrow, ArrowToHive, Normal;
    var columns := ToColumns(schema);
    forall i | 0 <= i < |schema|
      ensures HiveToArrow(columns[i].1) == if Recoverable(schema[i].dataType) then Some(Normal(schema[i].dataType)) else None
    {
      assert schema[i] in schema;
      TypeRoundTrip(schema[i].dataType);
    }
    if f :| f in schema && !Recoverable(f.dataType) {
      var i :| 0 <= i < |schema| && schema[i] == f;
      assert columns[i] in columns;
    } else if schema != [] {
      assert forall i :: 0 <= i < |schema| ==> schema[i] in schema;
      assert ColumnsToSchema(columns).value == Recovered(schema);
    }
  }

  lemma MappableConcat(a: Schema, b: Schema)
    ensures Mappable(a + b) <==> Mappable(a) && Mappable(b)
  {
    hide ArrowToHive;
    assert forall f :: f in a + b <==> f in a || f in b;
  }

  lemma ToColumnsConcat(a: Schema, b: Schema)
    requires Mappable(a) && Mappable(b)
    ensures Mappable(a + b) && ToColumns(a + b) == ToColumns(a) + ToColumns(b)
  {
    MappableConcat(a, b);
    hide ArrowToHive, Mappable;
    var l, r := ToColumns(a + b), ToColumns(a) + ToColumns(b);
    assert forall i :: 0 <= i < |l| ==> l[i] == r[i];
  }

  lemma RecoveredConcat(a: Schema, b: Schema)
    ensures Recovered(a + b) == Recovered(a) + Recovered(b)
  {
    hide Normal;
  }

  predicate AllRecoverable(schema: Schema) {
    forall f <- schema :: Recoverable(f.dataType)
  }

  /** Create then load: the stored columns give back the data fields and then the partition fields, both in
      schema order, nullable and normalised, unless a decimal has precision zero; then no schema at all. */
  lemma CreateThenLoad(schema: Schema, partitions: seq<string>)
    requires schema != [] && Mappable(schema)
    ensures var data, parts := Select(schema, partitions, false), Select(schema, partitions, true);
            ColumnsToSchema(ToColumns(data) + ToColumns(parts)) ==
            if AllRecoverable(schema) then Some(Recovered(data) + Recovered(parts)) else None
  {
    var data, parts := Select(schema, partitions, false), Select(schema, partitions, true);
    SelectCovers(schema, partitions);
    ToColumnsConcat(data, parts);
    RecoveredConcat(data, parts);
    ColumnsReadBack(data + parts);
    assert AllRecoverable(schema) <==> AllRecoverable(data + parts) by {
      assert forall f <- schema :: f in data + parts;
      assert forall f <- data + parts :: f in schema;
    }
  }

  lemma {:induction false} SelectCovers(schema: Schema, partitions: seq<string>)
    ensures |Select(schema, partitions, false)| + |Select(schema, partitions, true)| == |schema|
    ensures forall f <- schema :: f in Select(schema, partitions, f.name in partitions)
  {
    if schema != [] {
      SelectCovers(schema[..|schema| - 1], partitions);
    }
  }
}
