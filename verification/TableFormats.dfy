/** Table formats and the provider names they are stored under. */
module TableFormats {
  import opened Strings
  import opened Wrappers

  datatype TableFormat = Parquet | Delta | Iceberg | Csv | Json

  function FormatName(format: TableFormat): string {
    match format
    case Parquet => "parquet"
    case Delta => "delta"
    case Iceberg => "iceberg"
    case Csv => "csv"
    case Json => "json"
  }

  function Provider(t: string): Option<TableFormat> {
    if t == "parquet" then Some(Parquet)
    else if t == "delta" then Some(Delta)
    else if t == "iceberg" then Some(Iceberg)
    else if t == "csv" then Some(Csv)
    else if t == "json" then Some(Json)
    else None
  }

  function FromProvider(s: string): Option<TableFormat> {
    Provider(Lower(Trim(s)))
  }

  lemma PlainProvider(t: string)
    requires t != "" && forall i :: 0 <= i < |t| ==> 'a' <= t[i] <= 'z'
    ensures FromProvider(t) == Provider(t)
  {
    assert Trim(t) == t;
    LowerIsLower(t);
  }

  lemma FormatReadsBack(format: TableFormat)
    ensures FromProvider(FormatName(format)) == Some(format)
  {
    PlainProvider(FormatName(format));
  }

  /** The provider names, spaces around them and case aside. */
  lemma ProvidersExactly(s: string, format: TableFormat)
    ensures FromProvider(s) == Some(format) <==>
            Lower(Trim(s)) == match format
            case Parquet => "parquet"
            case Delta => "delta"
            case Iceberg => "iceberg"
            case Csv => "csv"
            case Json => "json"
  {
    hide Trim;
    var names := ["parquet", "delta", "iceberg", "csv", "json"];
    assert |names[0]| == 7 && |names[1]| == 5 && |names[2]| == 7 && |names[3]| == 3 && |names[4]| == 4;
    assert names[0][0] == 'p' && names[2][0] == 'i';
  }
}
