/** What one change does to a Glue definition, part by part. */
module GlueChanges {
  import opened AlterTables
  import opened HiveTypes
  import opened Wrappers

  function Parameter(t: TableInput, key: string): Option<string> {
    if t.parameters.Some? && key in t.parameters.value then Some(t.parameters.value[key]) else None
  }

  /** The i-th column has the comment and every other column, and everything else about it, is as it was. */
  predicate Commented(before: seq<Column>, i: nat, comment: Option<string>, after: seq<Column>) {
    && i < |before| == |after|
    && after[i] == Column(before[i].name, before[i].ty, comment)
    && forall j :: 0 <= j < |before| && j != i ==> after[j] == before[j]
  }

  /** The first column of that name. */
  predicate IsFirst(columns: seq<Column>, name: string, i: nat) {
    i < |columns| && columns[i].name == name && forall j :: 0 <= j < i ==> columns[j].name != name
  }

  predicate Lacks(columns: seq<Column>, name: string) {
    forall i :: 0 <= i < |columns| ==> columns[i].name != name
  }

  lemma PropertiesDo(t: TableInput, props: map<string, string>, keys: seq<string>, key: string)
    ensures var r := GlueChange(t, SetProperties(props));
            && r.Ok? && r.value == t.(parameters := r.value.parameters)
            && Parameter(r.value, key) == if key in props then Some(props[key]) else Parameter(t, key)
    ensures var r := GlueChange(t, UnsetProperties(keys));
            && r.Ok? && r.value == t.(parameters := r.value.parameters)
            && Parameter(r.value, key) == if key in keys then None else Parameter(t, key)
  {
  }

  /** An empty comment is stored as none; a location is stored with a slash at its end. */
  lemma CommentAndLocationDo(t: TableInput, text: Option<string>, location: string)
    ensures GlueChange(t, SetComment(text)) ==
            Ok(t.(description := if text.Some? && text.value != "" then text else None))
    ensures GlueChange(t, SetLocation(location)) ==
            if t.storage.None? then Err(Plan)
            else
              var at := if location != "" && location[|location| - 1] == '/' then location else location + "/";
              Ok(t.(storage := Some(StorageDescriptor(Some(at), t.storage.value.columns))))
  {
  }

  /** New columns come last, with their Hive types and no comment. */
  lemma AddColumnsDoes(t: TableInput, fields: Schema)
    ensures var r := GlueChange(t, AddColumns(fields));
            if t.storage.None? then r == Err(Plan)
            else if exists f <- fields :: ArrowToHive(f.dataType).None? then r == Err(Unsupported)
            else
              var n := |Data(t)|;
              && r.Ok? && r.value.storage.Some?
              && r.value == t.(storage := Some(t.storage.value.(columns := Some(Data(r.value)))))
              && |Data(r.value)| == n + |fields| && Data(r.value)[..n] == Data(t)
              && forall i :: 0 <= i < |fields| ==>
                   Data(r.value)[n + i] == Column(fields[i].name, ArrowToHive(fields[i].dataType), None)
  {
    hide ArrowToHive;
    assert Mappable(fields) <==> !exists f <- fields :: ArrowToHive(f.dataType).None?;
  }

  lemma FirstNamed(columns: seq<Column>, name: string, i: nat)
    requires IsFirst(columns, name, i)
    ensures Named(columns, name) && FirstIndex(columns, name) == i
  {
    FirstIndexIs(columns, name, i);
  }

  lemma LackingIsNotNamed(columns: seq<Column>, name: string)
    ensures Lacks(columns, name) <==> !Named(columns, name)
  {
    if Lacks(columns, name) {
      FirstIndexIs(columns, name, |columns|);
    }
  }

  /** A column comment goes to the first data column of that name, else to the first partition key, and to no other
      column; an empty one removes the comment. */
  lemma ColumnCommentDoes(t: TableInput, column: string, text: Option<string>, i: nat)
    ensures var r, comment := GlueChange(t, SetColumnComment(column, text)), if text == Some("") then None else text;
            && (Lacks(Data(t), column) && Lacks(Keys(t), column) ==> r == Err(Plan))
            && (IsFirst(Data(t), column, i) ==>
                  && r.Ok? && r.value.storage.Some? && Commented(Data(t), i, comment, Data(r.value))
                  && r.value == t.(storage := Some(t.storage.value.(columns := Some(Data(r.value))))))
            && (Lacks(Data(t), column) && IsFirst(Keys(t), column, i) ==>
                  && r.Ok? && Commented(Keys(t), i, comment, Keys(r.value))
                  && r.value == t.(partitionKeys := Some(Keys(r.value))))
  {
    LackingIsNotNamed(Data(t), column);
    LackingIsNotNamed(Keys(t), column);
    if IsFirst(Data(t), column, i) {
      FirstNamed(Data(t), column, i);
    }
    if IsFirst(Keys(t), column, i) {
      FirstNamed(Keys(t), column, i);
    }
  }
}
