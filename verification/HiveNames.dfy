/** Which Hive type strings name which Arrow types: every one of them, not only those that are printed. */
module HiveNames {
  import opened HiveTypes
  import opened Strings
  import opened Wrappers

  // ---- scalar names

  lemma NamesOfInt64(t: string)
    ensures ScalarType(t) == Some(Int64) <==> t in ["bigint", "long"]
  {
  }

  lemma NamesOfInt32(t: string)
    ensures ScalarType(t) == Some(Int32) <==> t in ["int", "integer"]
  {
  }

  lemma NamesOfInt16(t: string)
    ensures ScalarType(t) == Some(Int16) <==> t in ["smallint", "short"]
  {
  }

  lemma NamesOfInt8(t: string)
    ensures ScalarType(t) == Some(Int8) <==> t in ["tinyint", "byte"]
  {
  }

  lemma NamesOfFloat64(t: string)
    ensures ScalarType(t) == Some(Float64) <==> t in ["double"]
  {
  }

  lemma NamesOfFloat32(t: string)
    ensures ScalarType(t) == Some(Float32) <==> t in ["float", "real"]
  {
  }

  lemma NamesOfText(t: string)
    ensures ScalarType(t) == Some(Utf8) <==> t in ["string", "varchar", "char", "text"]
  {
  }

  lemma NamesOfBoolean(t: string)
    ensures ScalarType(t) == Some(Boolean) <==> t in ["boolean", "bool"]
  {
  }

  lemma NamesOfDate(t: string)
    ensures ScalarType(t) == Some(Date32) <==> t in ["date"]
  {
  }

  lemma NamesOfWallClock(t: string)
    ensures ScalarType(t) == Some(Timestamp(Microsecond, None)) <==> t in ["timestamp", "timestamp_ntz"]
  {
  }

  lemma NamesOfInstant(t: string)
    ensures ScalarType(t) == Some(Timestamp(Microsecond, Some("UTC"))) <==> t in ["timestamp with local time zone"]
  {
  }

  lemma NamesOfBytes(t: string)
    ensures ScalarType(t) == Some(Binary) <==> t in ["binary"]
  {
  }

  // ---- numerals

  /** One or more digits, worth `n` in base ten. */
  predicate IsDigits(s: string, n: int) {
    && s != "" && (forall i :: 0 <= i < |s| ==> '0' <= s[i] <= '9')
    && n == Worth(s, 0)
  }

  /** The value of the digits read from the left, after `before`. */
  function Worth(s: string, before: int): int {
    if s == "" then before else Worth(s[1..], 10 * before + s[0] as int - 48)
  }

  lemma {:induction false} WorthSnoc(s: string, c: char, before: int)
    ensures Worth(s + [c], before) == 10 * Worth(s, before) + c as int - 48
    decreases |s|
  {
    if s == "" {
      assert s + [c] == [c] && [c][1..] == "";
    } else {
      assert (s + [c])[1..] == s[1..] + [c];
      WorthSnoc(s[1..], c, 10 * before + s[0] as int - 48);
    }
  }

  lemma {:induction false} DigitsAreWorth(s: string)
    ensures ParseDigits(s).Some? <==> forall i :: 0 <= i < |s| ==> '0' <= s[i] <= '9'
    ensures ParseDigits(s).Some? ==> ParseDigits(s).value == Worth(s, 0)
    decreases |s|
  {
    if s != "" {
      var front, c := s[..|s| - 1], s[|s| - 1];
      assert s == front + [c];
      DigitsAreWorth(front);
      WorthSnoc(front, c, 0);
    }
  }

  /** A numeral without a sign, or with a plus. */
  predicate IsUnsigned(s: string, n: int) {
    IsDigits(s, n) || (s != "" && s[0] == '+' && IsDigits(s[1..], n))
  }

  predicate IsSigned(s: string, n: int) {
    IsUnsigned(s, n) || (s != "" && s[0] == '-' && IsDigits(s[1..], -n))
  }

  lemma NatExactly(s: string, n: int)
    ensures IsDigits(s, n) <==> n >= 0 && ParseNat(s) == Some(n)
  {
    DigitsAreWorth(s);
  }

  lemma NoSignInDigits(s: string, n: int)
    requires IsDigits(s, n)
    ensures s[0] != '+' && s[0] != '-'
  {
  }

  lemma U8Exactly(s: string, p: u8)
    ensures ParseU8(s) == Some(p) <==> IsUnsigned(s, p)
  {
    hide IsDigits, ParseNat;
    NatExactly(s, p);
    if IsDigits(s, p) {
      NoSignInDigits(s, p);
    }
    if s != "" {
      NatExactly(s[1..], p);
    }
  }

  lemma I8Exactly(s: string, n: i8)
    ensures ParseI8(s) == Some(n) <==> IsSigned(s, n)
  {
    hide IsDigits, ParseNat;
    NatExactly(s, n);
    if IsDigits(s, n) {
      NoSignInDigits(s, n);
    }
    if s != "" {
      NatExactly(s[1..], n);
      NatExactly(s[1..], -(n as int));
    }
  }

  /** Numerals are printed without needless zeros, and with a sign exactly when they are negative. */
  lemma {:induction false} PrintsShort(n: nat)
    ensures PrintNat(n)[0] == '0' ==> n == 0 && |PrintNat(n)| == 1
    ensures forall i :: 0 <= i < |PrintNat(n)| ==> '0' <= PrintNat(n)[i] <= '9'
  {
    if n >= 10 {
      PrintsShort(n / 10);
    }
  }

  lemma SignExactly(n: int)
    ensures PrintInt(n)[0] == '-' <==> n < 0
    ensures n < 0 ==> PrintInt(n) == "-" + PrintNat(-n)
  {
    if n >= 0 {
      PrintsShort(n);
    }
  }

  // ---- decimals

  /** A precision that is not zero, and a scale, or none for scale zero. */
  ghost predicate IsArgs(args: string, p: int, s: int) {
    && p != 0
    && (|| (',' !in args && IsUnsigned(Trim(args), p) && s == 0)
        || exists a: string, b: string ::
             args == a + "," + b && ',' !in a && ',' !in b && IsUnsigned(Trim(a), p) && IsSigned(Trim(b), s))
  }

  lemma ArgsOfOne(args: string, p: u8, s: i8)
    requires ',' !in args
    ensures ParseDecimalArgs(args) == Some((p, s)) <==> p != 0 && IsUnsigned(Trim(args), p) && s == 0
  {
    hide ParseU8, ParseI8, IsUnsigned, Trim;
    SplitNone(args, ',');
    U8Exactly(Trim(args), p);
  }

  lemma ArgsOfTwo(a: string, b: string, p: u8, s: i8)
    requires ',' !in a && ',' !in b
    ensures ParseDecimalArgs(a + "," + b) == Some((p, s)) <==> p != 0 && IsUnsigned(Trim(a), p) && IsSigned(Trim(b), s)
  {
    hide ParseU8, ParseI8, IsUnsigned, IsSigned, Trim, Split;
    SplitFirst(a, b, ',');
    SplitNone(b, ',');
    assert a + [','] + b == a + "," + b;
    U8Exactly(Trim(a), p);
    I8Exactly(Trim(b), s);
  }

  lemma ArgsOfMore(a: string, b: string)
    requires ',' !in a && ',' in b
    ensures ParseDecimalArgs(a + "," + b).None?
  {
    hide ParseU8, ParseI8, Trim, Split;
    SplitFirst(a, b, ',');
    assert a + [','] + b == a + "," + b;
    SplitMany(b, ',');
  }

  lemma SplitMany(s: string, sep: char)
    requires sep in s
    ensures |Split(s, sep)| >= 2
  {
    hide Split;
    var (a, b) := SplitOnce(s, sep).value;
    SplitFirst(a, b, sep);
  }

  lemma ArgsExactly(args: string, p: u8, s: i8)
    ensures ParseDecimalArgs(args) == Some((p, s)) <==> IsArgs(args, p, s)
  {
    hide ParseDecimalArgs, IsUnsigned, IsSigned, Trim;
    if ',' !in args {
      ArgsOfOne(args, p, s);
      assert forall a: string, b: string :: args != a + "," + b by {
        forall a: string, b: string
          ensures args != a + "," + b
        {
          assert (a + "," + b)[|a|] == ',';
        }
      }
    } else {
      var (a, b) := SplitOnce(args, ',').value;
      assert args == a + "," + b;
      forall c: string, d: string | args == c + "," + d && ',' !in c
        ensures c == a && d == b
      {
        SplitOnceIs(c, d, ',');
        assert c + [','] + d == args;
      }
      if ',' in b {
        ArgsOfMore(a, b);
      } else {
        ArgsOfTwo(a, b, p, s);
      }
    }
  }

  ghost predicate IsApplied(t: string, word: string, p: int, s: int) {
    exists args: string :: t == word + args + ")" && IsArgs(args, p, s)
  }

  ghost predicate IsDecimal(t: string, p: int, s: int) {
    || (t in ["decimal", "numeric"] && p == 10 && s == 0)
    || IsApplied(t, "decimal(", p, s)
    || IsApplied(t, "numeric(", p, s)
  }

  predicate IsBracketed(t: string, word: string) {
    word <= t && |t| > |word| && t[|t| - 1] == ')'
  }

  lemma BracketedIs(t: string, word: string, args: string)
    ensures t == word + args + ")" <==> IsBracketed(t, word) && args == t[|word|..|t| - 1]
  {
    if IsBracketed(t, word) {
      assert t == word + t[|word|..|t| - 1] + ")";
    }
  }

  lemma DecimalWords(t: string)
    ensures StartsWith(t, "decimal(") ==> !StartsWith(t, "numeric(") && t != "decimal" && t != "numeric"
    ensures StartsWith(t, "numeric(") ==> t != "decimal" && t != "numeric"
    ensures StartsWith(t, "decimal(") || StartsWith(t, "numeric(") || t == "decimal" || t == "numeric" ==>
              !StartsWith(t, "varchar(") && !StartsWith(t, "char(")
  {
    if StartsWith(t, "decimal(") {
      assert t[0] == t[..8][0] == 'd' && t[7] == t[..8][7] == '(';
    }
    if StartsWith(t, "numeric(") {
      assert t[0] == t[..8][0] == 'n' && t[7] == t[..8][7] == '(';
    }
    if StartsWith(t, "varchar(") {
      assert t[0] == t[..8][0] == 'v';
    }
    if StartsWith(t, "char(") {
      assert t[0] == t[..5][0] == 'c';
    }
    assert "decimal"[0] == 'd' && "numeric"[0] == 'n';
  }

  lemma AppliedIs(t: string, word: string, p: u8, s: i8)
    ensures IsApplied(t, word, p, s) <==>
            IsBracketed(t, word) && ParseDecimalArgs(t[|word|..|t| - 1]) == Some((p, s))
  {
    hide IsArgs, ParseDecimalArgs;
    if IsBracketed(t, word) {
      var args := t[|word|..|t| - 1];
      ArgsExactly(args, p, s);
      BracketedIs(t, word, args);
    }
    if args: string :| t == word + args + ")" && IsArgs(args, p, s) {
      BracketedIs(t, word, args);
    }
  }

  lemma DecimalExactly(t: string, p: u8, s: i8)
    ensures ParameterizedType(t) == Some(Decimal128(p, s)) <==> IsDecimal(t, p, s)
  {
    AppliedIs(t, "decimal(", p, s);
    AppliedIs(t, "numeric(", p, s);
    DecimalWords(t);
    hide IsApplied, ParseDecimalArgs;
    assert IsBracketed(t, "decimal(") <==> StartsWith(t, "decimal(") && |t| > 8 && t[|t| - 1] == ')';
    assert IsBracketed(t, "numeric(") <==> StartsWith(t, "numeric(") && |t| > 8 && t[|t| - 1] == ')';
  }

  // ---- all of them

  predicate IsWordy(t: string) {
    '(' !in t && t != "decimal" && t != "numeric"
  }

  lemma NumbersAreWordy()
    ensures IsWordy("bigint") && IsWordy("long") && IsWordy("int") && IsWordy("integer")
    ensures IsWordy("smallint") && IsWordy("short") && IsWordy("tinyint") && IsWordy("byte")
    ensures IsWordy("double") && IsWordy("float") && IsWordy("real")
  {
  }

  lemma OthersAreWordy()
    ensures IsWordy("string") && IsWordy("varchar") && IsWordy("char") && IsWordy("text")
    ensures IsWordy("boolean") && IsWordy("bool") && IsWordy("date") && IsWordy("binary")
  {
  }

  lemma TimesAreWordy()
    ensures IsWordy("timestamp") && IsWordy("timestamp_ntz") && IsWordy("timestamp with local time zone")
  {
  }

  lemma ScalarHasNoBracket(t: string)
    requires ScalarType(t).Some?
    ensures IsWordy(t)
  {
    NumbersAreWordy();
    OthersAreWordy();
    TimesAreWordy();
    hide IsWordy;
  }

  lemma ParameterHasBracket(t: string)
    requires ParameterizedType(t).Some?
    ensures '(' in t || t == "decimal" || t == "numeric"
  {
    hide ParseDecimal;
    if StartsWith(t, "char(") {
      assert t[4] == t[..5][4] == '(';
    } else if StartsWith(t, "varchar(") || StartsWith(t, "decimal(") || StartsWith(t, "numeric(") {
      assert t[7] == t[..8][7] == '(';
    }
  }

  /** No string is both. */
  lemma OneOrTheOther(t: string)
    ensures ScalarType(t).None? || ParameterizedType(t).None?
  {
    hide ScalarType, ParameterizedType;
    if ScalarType(t).Some? && ParameterizedType(t).Some? {
      ScalarHasNoBracket(t);
      ParameterHasBracket(t);
    }
  }

  lemma OnlyTheseTypes(t: string)
    ensures ParameterizedType(t).Some? ==> ParameterizedType(t).value.Decimal128? || ParameterizedType(t).value == Utf8
    ensures ParameterizedType(t) == Some(Utf8) <==> StartsWith(t, "varchar(") || StartsWith(t, "char(")
    ensures ScalarType(t).Some? ==> !ScalarType(t).value.Decimal128?
  {
    hide ParseDecimalArgs;
  }

  /** What names a type, spaces around it and case aside. */
  ghost predicate Names(t: string, dt: DataType) {
    match dt
    case Int64 => t in ["bigint", "long"]
    case Int32 => t in ["int", "integer"]
    case Int16 => t in ["smallint", "short"]
    case Int8 => t in ["tinyint", "byte"]
    case Float64 => t in ["double"]
    case Float32 => t in ["float", "real"]
    case Utf8 => t in ["string", "varchar", "char", "text"] || "varchar(" <= t || "char(" <= t
    case Boolean => t in ["boolean", "bool"]
    case Date32 => t in ["date"]
    case Timestamp(Microsecond, None) => t in ["timestamp", "timestamp_ntz"]
    case Timestamp(Microsecond, Some(tz)) => tz == "UTC" && t in ["timestamp with local time zone"]
    case Binary => t in ["binary"]
    case Decimal128(p, s) => IsDecimal(t, p, s)
    case _ => false
  }

  lemma ScalarNames(t: string, dt: DataType)
    requires !dt.Decimal128? && dt != Utf8
    ensures ScalarType(t) == Some(dt) <==> Names(t, dt)
  {
    match dt
    case Int64 => NamesOfInt64(t);
    case Int32 => NamesOfInt32(t);
    case Int16 => NamesOfInt16(t);
    case Int8 => NamesOfInt8(t);
    case Float64 => NamesOfFloat64(t);
    case Float32 => NamesOfFloat32(t);
    case Boolean => NamesOfBoolean(t);
    case Date32 => NamesOfDate(t);
    case Timestamp(Microsecond, None) => NamesOfWallClock(t);
    case Timestamp(Microsecond, Some(tz)) => NamesOfInstant(t);
    case Binary => NamesOfBytes(t);
    case _ =>
  }

  /** Which strings are read as which type: exactly these, for every string and every type. */
  lemma TypesExactly(ty: string, dt: DataType)
    ensures HiveToArrow(ty) == Some(dt) <==> Names(Lower(Trim(ty)), dt)
  {
    var t := Lower(Trim(ty));
    OneOrTheOther(t);
    OnlyTheseTypes(t);
    hide ScalarType, ParameterizedType, IsDecimal, Trim;
    if dt.Decimal128? {
      DecimalExactly(t, dt.p, dt.s);
    } else if dt == Utf8 {
      NamesOfText(t);
    } else {
      hide Names;
      ScalarNames(t, dt);
    }
  }

  /** What is printed is a name of Hive's own, never one of the others that are read, or a decimal. */
  lemma PrintsHiveNames(dt: DataType)
    requires ArrowToHive(dt).Some?
    ensures var name := ArrowToHive(dt).value;
            || name in ["bigint", "int", "smallint", "tinyint", "double", "float", "string", "boolean", "date", "timestamp"]
            || name in ["timestamp with local time zone", "binary"]
            || (dt.Decimal128? && name == "decimal(" + PrintNat(dt.p) + "," + PrintInt(dt.s) + ")")
  {
  }

  predicate AllSpace(s: string) {
    forall i :: 0 <= i < |s| ==> IsSpace(s[i])
  }

  lemma SpaceMore(c: char, a: string)
    requires IsSpace(c) && AllSpace(a)
    ensures AllSpace([c] + a) && AllSpace(a + [c])
  {
  }

  /** What is cut off around a name is space, and none is left. */
  lemma {:induction false} TrimExactly(s: string) returns (a: string, b: string)
    ensures s == a + Trim(s) + b && AllSpace(a) && AllSpace(b)
    ensures Trim(s) != "" ==> !IsSpace(Trim(s)[0]) && !IsSpace(Trim(s)[|Trim(s)| - 1])
    decreases |s|
  {
    hide IsSpace, AllSpace;
    if s != "" && IsSpace(s[0]) {
      var x, y := TrimExactly(s[1..]);
      SpaceMore(s[0], x);
      a, b := [s[0]] + x, y;
      assert s == [s[0]] + s[1..] && [s[0]] + (x + Trim(s[1..]) + y) == a + Trim(s[1..]) + y;
    } else if s != "" && IsSpace(s[|s| - 1]) {
      var x, y := TrimExactly(s[..|s| - 1]);
      SpaceMore(s[|s| - 1], y);
      a, b := x, y + [s[|s| - 1]];
      assert s == s[..|s| - 1] + [s[|s| - 1]];
      assert x + Trim(s[..|s| - 1]) + y + [s[|s| - 1]] == x + Trim(s[..|s| - 1]) + b;
    } else {
      a, b := "", "";
      NothingTrimmed();
      assert "" + s + "" == s;
    }
  }

  lemma NothingTrimmed()
    ensures AllSpace("") && Trim("") == ""
  {
  }

  /** The spaces of Unicode, by code point. */
  lemma SpacesExactly(c: char)
    ensures IsSpace(c) <==>
            var n := c as int;
            || 0x9 <= n <= 0xD || n == 0x20 || n == 0x85 || n == 0xA0 || n == 0x1680 || 0x2000 <= n <= 0x200A
            || n == 0x2028 || n == 0x2029 || n == 0x202F || n == 0x205F || n == 0x3000
  {
  }
}
