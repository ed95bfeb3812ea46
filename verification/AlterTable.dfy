/** `ALTER TABLE` twice over: the local catalog validates every change and then applies them to its
    manifest entry; the Glue catalog applies them in one pass to the definition it will send. */
module AlterTables {
  import opened Wrappers
  import opened Manifests
  import opened HiveTypes

  datatype TableChange =
    | SetProperties(props: map<string, string>)
    | UnsetProperties(keys: seq<string>)
    | SetComment(text: Option<string>)
    | SetLocation(location: string)
    | AddColumns(fields: Schema)
    | SetColumnComment(column: string, text: Option<string>)

  /** An empty comment counts as none. */
  function NonEmpty(c: Option<string>): Option<string> {
    if c == Some("") then None else c
  }

  function WithSlash(location: string): string {
    if location != "" && location[|location| - 1] == '/' then location else location + "/"
  }

  predicate HasColumn(columns: HiveColumns, name: string) {
    exists c <- columns :: c.0 == name
  }

  // ---- the local applier

  /** Whether the entry as it stands admits the change. */
  function Check(e: TableEntry, c: TableChange): Option<Error> {
    match c
    case AddColumns(fields) => if Mappable(fields) then None else Some(Unsupported)
    case SetColumnComment(column, _) =>
      if HasColumn(e.columns, column) || HasColumn(e.partitionColumns, column) then None else Some(Plan)
    case _ => None
  }

  function SetOrRemove(m: map<string, string>, key: string, value: Option<string>): map<string, string> {
    if value.Some? then m[key := value.value] else m - {key}
  }

  function Change(e: TableEntry, c: TableChange): TableEntry
    requires c.AddColumns? ==> Mappable(c.fields)
  {
    match c
    case SetProperties(props) => e.(properties := e.properties + props)
    case UnsetProperties(keys) => e.(properties := e.properties - (set k | k in keys))
    case SetComment(text) => e.(comment := text)
    case SetLocation(location) => e.(location := location)
    case AddColumns(fields) => e.(columns := e.columns + ToColumns(fields))
    case SetColumnComment(column, text) =>
      e.(columnComments := SetOrRemove(e.columnComments, column, NonEmpty(text)))
  }

  predicate AllMappable(changes: seq<TableChange>) {
    forall c <- changes :: c.AddColumns? ==> Mappable(c.fields)
  }

  function ChangeAll(e: TableEntry, changes: seq<TableChange>): TableEntry
    requires AllMappable(changes)
    decreases |changes|
  {
    if changes == [] then e else ChangeAll(Change(e, changes[0]), changes[1..])
  }

  /** The first change, in order, that the entry does not admit. */
  function FirstRefusal(e: TableEntry, changes: seq<TableChange>): Option<Error>
    decreases |changes|
  {
    if changes == [] then None
    else match Check(e, changes[0])
      case Some(error) => Some(error)
      case None => FirstRefusal(e, changes[1..])
  }

  lemma {:induction false} NoRefusal(e: TableEntry, changes: seq<TableChange>)
    ensures FirstRefusal(e, changes).None? <==> forall c <- changes :: Check(e, c).None?
    ensures FirstRefusal(e, changes).None? ==> AllMappable(changes)
    decreases |changes|
  {
    if changes != [] {
      NoRefusal(e, changes[1..]);
      assert changes[0] in changes;
    }
  }

  /** All changes, judged against the entry before any of them, or none. */
  function AlterEntry(e: TableEntry, changes: seq<TableChange>): (r: Result<TableEntry>)
    ensures r.Ok? <==> forall c <- changes :: Check(e, c).None?
  {
    NoRefusal(e, changes);
    match FirstRefusal(e, changes)
    case Some(error) => Err(error)
    case None => Ok(ChangeAll(e, changes))
  }

  // ---- the Glue applier

  datatype Column = Column(name: string, ty: Option<string>, comment: Option<string>)

  datatype StorageDescriptor = StorageDescriptor(location: Option<string>, columns: Option<seq<Column>>)

  /** The part of a Glue `TableInput` that changes touch. */
  datatype TableInput = TableInput(
    description: Option<string>,
    storage: Option<StorageDescriptor>,
    partitionKeys: Option<seq<Column>>,
    parameters: Option<map<string, string>>)

  function NewColumns(fields: Schema): (r: seq<Column>)
    requires Mappable(fields)
    ensures |r| == |fields|
    ensures forall i :: 0 <= i < |r| ==> r[i] == Column(fields[i].name, ArrowToHive(fields[i].dataType), None)
  {
    seq(|fields|, i requires 0 <= i < |fields| => Column(fields[i].name, ArrowToHive(fields[i].dataType), None))
  }

  /** The first column called `name`, or the number of columns. */
  function FirstIndex(columns: seq<Column>, name: string): (i: nat)
    ensures i <= |columns|
    ensures forall j :: 0 <= j < i ==> columns[j].name != name
    ensures i < |columns| ==> columns[i].name == name
  {
    if columns == [] || columns[0].name == name then 0 else 1 + FirstIndex(columns[1..], name)
  }

  predicate Named(columns: seq<Column>, name: string) {
    FirstIndex(columns, name) < |columns|
  }

  /** Set the comment of the first column called `name`. */
  function SetFirst(columns: seq<Column>, name: string, comment: Option<string>): (r: seq<Column>)
    requires Named(columns, name)
    ensures |r| == |columns|
    ensures forall i :: 0 <= i < |r| ==> r[i].name == columns[i].name && r[i].ty == columns[i].ty
  {
    var i := FirstIndex(columns, name);
    columns[i := columns[i].(comment := comment)]
  }

  function Data(t: TableInput): seq<Column> {
    if t.storage.None? then [] else t.storage.value.columns.GetOr([])
  }

  function Keys(t: TableInput): seq<Column> {
    t.partitionKeys.GetOr([])
  }

  /** One change in place; the error paths of a table without a storage descriptor, of an unmappable
      type and of an unknown column. */
  function GlueChange(t: TableInput, c: TableChange): Result<TableInput> {
    match c
    case SetProperties(props) => Ok(t.(parameters := Some(t.parameters.GetOr(map[]) + props)))
    case UnsetProperties(keys) =>
      if t.parameters.None? then Ok(t)
      else Ok(t.(parameters := Some(t.parameters.value - (set k | k in keys))))
    case SetComment(text) => Ok(t.(description := NonEmpty(text)))
    case SetLocation(location) =>
      if t.storage.None? then Err(Plan)
      else Ok(t.(storage := Some(t.storage.value.(location := Some(WithSlash(location))))))
    case AddColumns(fields) =>
      if t.storage.None? then Err(Plan)
      else if !Mappable(fields) then Err(Unsupported)
      else Ok(t.(storage := Some(t.storage.value.(columns := Some(Data(t) + NewColumns(fields))))))
    case SetColumnComment(column, text) =>
      if Named(Data(t), column) then
        Ok(t.(storage := Some(t.storage.value.(columns := Some(SetFirst(Data(t), column, NonEmpty(text)))))))
      else if Named(Keys(t), column) then
        Ok(t.(partitionKeys := Some(SetFirst(Keys(t), column, NonEmpty(text)))))
      else Err(Plan)
  }

  function GlueChangeAll(t: TableInput, changes: seq<TableChange>): Result<TableInput>
    decreases |changes|
  {
    if changes == [] then Ok(t)
    else
      var t' :- GlueChange(t, changes[0]);
      GlueChangeAll(t', changes[1..])
  }

  /** Column comments as they are read back: later columns overwrite earlier ones of the same name, and
      empty comments do not count. */
  function Comments(columns: seq<Column>): map<string, string> {
    if columns == [] then map[]
    else
      var front, last := Comments(columns[..|columns| - 1]), columns[|columns| - 1];
      if NonEmpty(last.comment).None? then front else front[last.name := last.comment.value]
  }

  // ---- agreement

  function FirstComment(columns: seq<Column>, name: string): (r: Option<string>)
    ensures !Named(columns, name) ==> r.None?
  {
    var i := FirstIndex(columns, name);
    if i < |columns| then NonEmpty(columns[i].comment) else None
  }

  /** Only the first column of a name carries a comment. */
  predicate CommentsFirst(columns: seq<Column>) {
    forall i, j :: 0 <= i < j < |columns| && columns[i].name == columns[j].name ==> NonEmpty(columns[j].comment).None?
  }

  function Lookup(m: map<string, string>, name: string): Option<string> {
    if name in m then Some(m[name]) else None
  }

  lemma FirstIndexIs(columns: seq<Column>, name: string, i: nat)
    requires i <= |columns|
    requires forall j :: 0 <= j < i ==> columns[j].name != name
    requires i < |columns| ==> columns[i].name == name
    ensures FirstIndex(columns, name) == i
  {
  }

  lemma FirstIndexSplit(a: seq<Column>, b: seq<Column>, name: string)
    ensures FirstIndex(a + b, name) == if Named(a, name) then FirstIndex(a, name) else |a| + FirstIndex(b, name)
  {
    var i := if Named(a, name) then FirstIndex(a, name) else |a| + FirstIndex(b, name);
    FirstIndexIs(a + b, name, i);
  }

  lemma FirstCommentSnoc(front: seq<Column>, last: Column, name: string)
    ensures Named(front + [last], name) <==> Named(front, name) || last.name == name
    ensures FirstComment(front + [last], name) ==
            if Named(front, name) then FirstComment(front, name)
            else if last.name == name then NonEmpty(last.comment) else None
  {
    FirstIndexSplit(front, [last], name);
  }

  /** A name seen before has no comment further on. */
  lemma LastIsBare(front: seq<Column>, last: Column, name: string)
    requires CommentsFirst(front + [last])
    ensures CommentsFirst(front)
    ensures Named(front, name) && last.name == name ==> NonEmpty(last.comment).None?
  {
    var all := front + [last];
    assert forall i :: 0 <= i < |front| ==> all[i] == front[i];
    if Named(front, name) {
      assert all[FirstIndex(front, name)].name == name && all[|front|] == last;
    }
  }

  /** Reading comments back finds the first comments when only first columns carry them. */
  lemma {:induction false} CommentsAreFirst(columns: seq<Column>, name: string)
    requires CommentsFirst(columns)
    ensures Lookup(Comments(columns), name) == FirstComment(columns, name)
    decreases |columns|
  {
    if columns != [] {
      hide CommentsFirst, FirstComment, Named, NonEmpty;
      var front, last := columns[..|columns| - 1], columns[|columns| - 1];
      assert columns == front + [last];
      LastIsBare(front, last, name);
      CommentsAreFirst(front, name);
      FirstCommentSnoc(front, last, name);
      NonEmptyIs(last.comment);
    }
  }

  lemma NonEmptyIs(c: Option<string>)
    ensures NonEmpty(c).Some? ==> NonEmpty(c) == c
  {
  }

  /** Setting the first comment of one name changes that name only, and keeps comments on first columns. */
  lemma SetFirstEffect(columns: seq<Column>, name: string, comment: Option<string>, other: string)
    requires Named(columns, name) && CommentsFirst(columns)
    ensures FirstComment(SetFirst(columns, name, comment), other) ==
            if other == name then NonEmpty(comment) else FirstComment(columns, other)
    ensures CommentsFirst(SetFirst(columns, name, comment))
  {
    FirstIndexIs(SetFirst(columns, name, comment), other, FirstIndex(columns, other));
  }

  /** Reading back over data and keys: a key's comment wins over a data column of the same name. */
  lemma {:induction false} ReadBack(data: seq<Column>, keys: seq<Column>, name: string)
    requires CommentsFirst(data) && CommentsFirst(keys)
    ensures Lookup(Comments(data + keys), name) ==
            if FirstComment(keys, name).Some? then FirstComment(keys, name) else FirstComment(data, name)
    decreases |keys|
  {
    if keys == [] {
      assert data + keys == data;
      CommentsAreFirst(data, name);
    } else {
      hide CommentsFirst, FirstComment, Named, NonEmpty;
      var front, last := keys[..|keys| - 1], keys[|keys| - 1];
      assert keys == front + [last] && (data + keys)[..|data + keys| - 1] == data + front;
      LastIsBare(front, last, name);
      ReadBack(data, front, name);
      FirstCommentSnoc(front, last, name);
      NonEmptyIs(last.comment);
    }
  }

  /** The Glue columns spell the same names and types. */
  predicate SameColumns(columns: HiveColumns, glue: seq<Column>) {
    && |columns| == |glue|
    && forall i :: 0 <= i < |glue| ==> glue[i].name == columns[i].0 && glue[i].ty == Some(columns[i].1)
  }

  /** The entry and the Glue definition agree on everything but column comments: equal columns, keys and
      properties, the comment up to empty-to-none, the location up to a trailing slash. */
  ghost predicate SameShape(e: TableEntry, t: TableInput) {
    && t.storage.Some?
    && SameColumns(e.columns, Data(t))
    && SameColumns(e.partitionColumns, Keys(t))
    && e.properties == t.parameters.GetOr(map[])
    && NonEmpty(e.comment) == NonEmpty(t.description)
    && t.storage.value.location.Some?
    && WithSlash(e.location) == WithSlash(t.storage.value.location.value)
  }

  /** And on the comment of the column called `name`, as it is read back. */
  predicate SameComment(e: TableEntry, t: TableInput, name: string) {
    Lookup(e.columnComments, name) == Lookup(Comments(Data(t) + Keys(t)), name)
  }

  ghost predicate Same(e: TableEntry, t: TableInput) {
    SameShape(e, t) && forall name: string :: SameComment(e, t, name)
  }

  predicate DistinctNames(t: TableInput) {
    var all := Data(t) + Keys(t);
    forall i, j :: 0 <= i < j < |all| ==> all[i].name != all[j].name
  }

  lemma SameNames(columns: HiveColumns, glue: seq<Column>, name: string)
    requires SameColumns(columns, glue)
    ensures HasColumn(columns, name) <==> Named(glue, name)
  {
    if Named(glue, name) {
      var i := FirstIndex(glue, name);
      assert columns[i] in columns;
    }
    if c :| c in columns && c.0 == name {
      var i :| 0 <= i < |columns| && columns[i] == c;
      assert glue[i].name == name;
    }
  }

  /** Glue keeps the comment the entry has for `name`: on the data column if there is one, else on the key.
      Unless a data column has taken the name of a key that carries a comment: then reading back finds the
      key's comment for good. */
  predicate Tracked(e: TableEntry, t: TableInput, name: string) {
    || (Named(Data(t), name) && FirstComment(Keys(t), name).Some?)
    || Lookup(e.columnComments, name) == FirstComment(if Named(Data(t), name) then Data(t) else Keys(t), name)
  }

  ghost predicate Tracks(e: TableEntry, t: TableInput) {
    && SameShape(e, t)
    && CommentsFirst(Data(t)) && CommentsFirst(Keys(t))
    && forall name: string :: Tracked(e, t, name)
  }

  predicate Adds(c: TableChange, name: string) {
    c.AddColumns? && exists f <- c.fields :: f.name == name
  }

  /** The change adds the names it says and no other, and leaves the comments of keys that a data column
      hides. */
  predicate Extends(t: TableInput, c: TableChange, t': TableInput, name: string) {
    && (Named(Data(t'), name) <==> Named(Data(t), name) || Adds(c, name))
    && (Named(Keys(t'), name) <==> Named(Keys(t), name))
    && (Named(Data(t'), name) ==> FirstComment(Keys(t'), name) == FirstComment(Keys(t), name))
  }

  lemma AddedNames(data: seq<Column>, fields: Schema, name: string)
    requires Mappable(fields)
    ensures var data' := data + NewColumns(fields);
            && (Named(data', name) <==> Named(data, name) || Adds(AddColumns(fields), name))
            && FirstComment(data', name) == FirstComment(data, name)
  {
    hide ArrowToHive;
    var more := NewColumns(fields);
    FirstIndexSplit(data, more, name);
    if Named(more, name) {
      assert fields[FirstIndex(more, name)] in fields;
    }
    if f :| f in fields && f.name == name {
      var i :| 0 <= i < |fields| && fields[i] == f;
      assert more[i].name == name;
    }
  }

  lemma SameColumnsConcat(c: HiveColumns, g: seq<Column>, c': HiveColumns, g': seq<Column>)
    requires SameColumns(c, g) && SameColumns(c', g')
    ensures SameColumns(c + c', g + g')
  {
  }

  lemma NewShape(fields: Schema)
    requires Mappable(fields)
    ensures SameColumns(ToColumns(fields), NewColumns(fields))
  {
    hide ArrowToHive;
    assert forall i :: 0 <= i < |fields| ==> fields[i] in fields;
  }

  lemma BareColumns(data: seq<Column>, more: seq<Column>)
    requires CommentsFirst(data) && forall c <- more :: c.comment.None?
    ensures CommentsFirst(data + more)
  {
    var all := data + more;
    assert forall i :: |data| <= i < |all| ==> all[i] in more;
  }

  lemma AddedShape(columns: HiveColumns, data: seq<Column>, fields: Schema)
    requires Mappable(fields) && SameColumns(columns, data) && CommentsFirst(data)
    ensures SameColumns(columns + ToColumns(fields), data + NewColumns(fields))
    ensures CommentsFirst(data + NewColumns(fields))
  {
    hide ArrowToHive, SameColumns, CommentsFirst;
    NewShape(fields);
    SameColumnsConcat(columns, data, ToColumns(fields), NewColumns(fields));
    BareColumns(data, NewColumns(fields));
  }

  lemma AddTracks(e: TableEntry, t: TableInput, fields: Schema)
    requires Tracks(e, t) && Mappable(fields)
    ensures var c := AddColumns(fields);
            var r := GlueChange(t, c);
            && r.Ok? && Tracks(Change(e, c), r.value)
            && forall name: string :: Extends(t, c, r.value, name)
  {
    hide ArrowToHive, Named, FirstComment;
    var c := AddColumns(fields);
    var t' := GlueChange(t, c).value;
    assert Data(t') == Data(t) + NewColumns(fields) && Keys(t') == Keys(t);
    forall name: string
      ensures Extends(t, c, t', name)
      ensures Tracked(Change(e, c), t', name)
    {
      AddedNames(Data(t), fields, name);
      assert Tracked(e, t, name);
    }
    AddedShape(e.columns, Data(t), fields);
  }

  lemma SetFirstNames(columns: seq<Column>, column: string, comment: Option<string>, name: string)
    requires Named(columns, column)
    ensures Named(SetFirst(columns, column, comment), name) <==> Named(columns, name)
  {
    FirstIndexIs(SetFirst(columns, column, comment), name, FirstIndex(columns, name));
  }

  /** The comment goes to the data column of that name. */
  lemma DataCommentTracks(e: TableEntry, t: TableInput, column: string, text: Option<string>, name: string)
    requires Named(Data(t), column) && CommentsFirst(Data(t)) && Tracked(e, t, name)
    ensures var c := SetColumnComment(column, text);
            var t' := GlueChange(t, c).value;
            Tracked(Change(e, c), t', name) && (Named(Data(t'), name) <==> Named(Data(t), name)) && Keys(t') == Keys(t)
  {
    hide CommentsFirst;
    SetFirstEffect(Data(t), column, NonEmpty(text), name);
    SetFirstNames(Data(t), column, NonEmpty(text), name);
  }

  /** There is none, so it goes to the key. */
  lemma KeyCommentTracks(e: TableEntry, t: TableInput, column: string, text: Option<string>, name: string)
    requires !Named(Data(t), column) && Named(Keys(t), column) && CommentsFirst(Keys(t)) && Tracked(e, t, name)
    ensures var c := SetColumnComment(column, text);
            var t' := GlueChange(t, c).value;
            && Tracked(Change(e, c), t', name) && Data(t') == Data(t)
            && (Named(Keys(t'), name) <==> Named(Keys(t), name))
            && (Named(Data(t), name) ==> FirstComment(Keys(t'), name) == FirstComment(Keys(t), name))
  {
    hide CommentsFirst;
    var t' := GlueChange(t, SetColumnComment(column, text)).value;
    assert t' == t.(partitionKeys := Some(SetFirst(Keys(t), column, NonEmpty(text))));
    SetFirstEffect(Keys(t), column, NonEmpty(text), name);
    SetFirstNames(Keys(t), column, NonEmpty(text), name);
  }

  lemma CommentTracks(e: TableEntry, t: TableInput, column: string, text: Option<string>)
    requires Tracks(e, t)
    requires HasColumn(e.columns, column) || HasColumn(e.partitionColumns, column)
    ensures var c := SetColumnComment(column, text);
            var r := GlueChange(t, c);
            && r.Ok? && Tracks(Change(e, c), r.value)
            && forall name: string :: Extends(t, c, r.value, name)
  {
    hide Named, FirstComment;
    SameNames(e.columns, Data(t), column);
    SameNames(e.partitionColumns, Keys(t), column);
    var c := SetColumnComment(column, text);
    var t' := GlueChange(t, c).value;
    if Named(Data(t), column) {
      SetFirstEffect(Data(t), column, NonEmpty(text), column);
      forall name: string
        ensures Tracked(Change(e, c), t', name) && Extends(t, c, t', name)
      {
        assert Tracked(e, t, name);
        DataCommentTracks(e, t, column, text, name);
      }
    } else {
      SetFirstEffect(Keys(t), column, NonEmpty(text), column);
      forall name: string
        ensures Tracked(Change(e, c), t', name) && Extends(t, c, t', name)
      {
        assert Tracked(e, t, name);
        KeyCommentTracks(e, t, column, text, name);
      }
    }
  }

  lemma OtherTracks(e: TableEntry, t: TableInput, c: TableChange)
    requires Tracks(e, t) && !c.AddColumns? && !c.SetColumnComment?
    ensures var r := GlueChange(t, c);
            && r.Ok? && Tracks(Change(e, c), r.value)
            && forall name: string :: Extends(t, c, r.value, name)
  {
    hide Named, FirstComment;
    var t' := GlueChange(t, c).value;
    assert Data(t') == Data(t) && Keys(t') == Keys(t);
    forall name: string
      ensures Tracked(Change(e, c), t', name)
    {
      assert Tracked(e, t, name);
    }
  }

  /** One accepted change keeps the two together. */
  lemma ChangeTracks(e: TableEntry, t: TableInput, c: TableChange)
    requires Tracks(e, t) && Check(e, c).None?
    ensures var r := GlueChange(t, c);
            && r.Ok? && Tracks(Change(e, c), r.value)
            && forall name: string :: Extends(t, c, r.value, name)
  {
    hide Tracks, Extends;
    match c
    case AddColumns(fields) => AddTracks(e, t, fields);
    case SetColumnComment(column, text) => CommentTracks(e, t, column, text);
    case _ => OtherTracks(e, t, c);
  }

  lemma ChangeKeepsNames(e: TableEntry, c: TableChange, name: string)
    requires c.AddColumns? ==> Mappable(c.fields)
    requires HasColumn(e.columns, name) || HasColumn(e.partitionColumns, name)
    ensures HasColumn(Change(e, c).columns, name) || HasColumn(Change(e, c).partitionColumns, name)
  {
    var e' := Change(e, c);
    if HasColumn(e.columns, name) {
      var col :| col in e.columns && col.0 == name;
      assert col in e'.columns;
    }
  }

  /** The comment of the column called `name` after one change, and after all of them. */
  function CommentAfter(comment: Option<string>, c: TableChange, name: string): Option<string> {
    if c.SetColumnComment? && c.column == name then NonEmpty(c.text) else comment
  }

  function FinalComment(comment: Option<string>, changes: seq<TableChange>, name: string): Option<string>
    decreases |changes|
  {
    if changes == [] then comment else FinalComment(CommentAfter(comment, changes[0], name), changes[1..], name)
  }

  /** The comment a key called `name` carries when a change first adds a data column of its name. */
  function Frozen(comment: Option<string>, changes: seq<TableChange>, name: string): Option<string>
    decreases |changes|
  {
    if changes == [] then None
    else if Adds(changes[0], name) then comment
    else Frozen(CommentAfter(comment, changes[0], name), changes[1..], name)
  }

  lemma CommentChanges(e: TableEntry, c: TableChange, name: string)
    requires c.AddColumns? ==> Mappable(c.fields)
    ensures Lookup(Change(e, c).columnComments, name) == CommentAfter(Lookup(e.columnComments, name), c, name)
  {
  }

  lemma {:induction false} CommentsEndAs(e: TableEntry, changes: seq<TableChange>, name: string)
    requires AllMappable(changes)
    ensures Lookup(ChangeAll(e, changes).columnComments, name) == FinalComment(Lookup(e.columnComments, name), changes, name)
    decreases |changes|
  {
    hide Change, CommentAfter;
    if changes != [] {
      assert changes[0] in changes;
      CommentChanges(e, changes[0], name);
      CommentsEndAs(Change(e, changes[0]), changes[1..], name);
    }
  }

  /** What Glue reads back for `name` that the entry may not have, from here on. */
  function FrozenFrom(e: TableEntry, t: TableInput, changes: seq<TableChange>, name: string): Option<string> {
    if !Named(Keys(t), name) then None
    else if Named(Data(t), name) then FirstComment(Keys(t), name)
    else Frozen(Lookup(e.columnComments, name), changes, name)
  }

  lemma ReadsFrozen(e: TableEntry, t: TableInput, name: string)
    requires Tracks(e, t)
    ensures var frozen := FrozenFrom(e, t, [], name);
            Lookup(Comments(Data(t) + Keys(t)), name) == if frozen.Some? then frozen else Lookup(e.columnComments, name)
  {
    hide Named, FirstComment;
    ReadBack(Data(t), Keys(t), name);
    assert Tracked(e, t, name);
  }

  /** A change accepted for the entry is still accepted after another one. */
  lemma ChecksStay(e: TableEntry, c: TableChange, d: TableChange)
    requires Check(e, c).None? && Check(e, d).None?
    ensures Check(Change(e, c), d).None?
  {
    if d.SetColumnComment? {
      ChangeKeepsNames(e, c, d.column);
    }
  }

  lemma FrozenStep(e: TableEntry, t: TableInput, changes: seq<TableChange>, t1: TableInput, name: string)
    requires changes != []
    requires changes[0].AddColumns? ==> Mappable(changes[0].fields)
    requires Tracked(e, t, name) && Extends(t, changes[0], t1, name)
    ensures FrozenFrom(Change(e, changes[0]), t1, changes[1..], name) == FrozenFrom(e, t, changes, name)
  {
    hide Named, FirstComment, Change, Adds, CommentAfter;
    CommentChanges(e, changes[0], name);
  }

  lemma {:induction false} AlterTracks(e: TableEntry, t: TableInput, changes: seq<TableChange>)
    requires Tracks(e, t) && forall c <- changes :: Check(e, c).None?
    ensures AllMappable(changes)
    ensures GlueChangeAll(t, changes).Ok?
    ensures Tracks(ChangeAll(e, changes), GlueChangeAll(t, changes).value)
    ensures var e', t' := ChangeAll(e, changes), GlueChangeAll(t, changes).value;
            forall name: string :: FrozenFrom(e', t', [], name) == FrozenFrom(e, t, changes, name)
    decreases |changes|
  {
    hide Named, FirstComment, Change, GlueChange, FrozenFrom, Extends, Tracked;
    NoRefusal(e, changes);
    if changes != [] {
      var c, rest := changes[0], changes[1..];
      assert c in changes;
      ChangeTracks(e, t, c);
      var e1, t1 := Change(e, c), GlueChange(t, c).value;
      forall d <- rest
        ensures Check(e1, d).None?
      {
        assert d in changes;
        ChecksStay(e, c, d);
      }
      AlterTracks(e1, t1, rest);
      forall name: string
        ensures FrozenFrom(e1, t1, rest, name) == FrozenFrom(e, t, changes, name)
      {
        FrozenStep(e, t, changes, t1, name);
      }
    }
  }

  lemma DistinctSides(data: seq<Column>, keys: seq<Column>, name: string)
    requires forall i, j :: 0 <= i < |data| && 0 <= j < |keys| ==> data[i].name != keys[j].name
    ensures !(Named(data, name) && Named(keys, name))
  {
  }

  lemma SameTracks(e: TableEntry, t: TableInput)
    requires Same(e, t) && DistinctNames(t)
    ensures Tracks(e, t)
    ensures forall name: string :: Named(Keys(t), name) ==> !Named(Data(t), name)
  {
    hide Named, FirstComment;
    var data, keys := Data(t), Keys(t);
    var all := data + keys;
    assert forall i :: 0 <= i < |data| ==> all[i] == data[i];
    assert forall i :: 0 <= i < |keys| ==> all[|data| + i] == keys[i];
    assert forall i, j :: 0 <= i < |data| && 0 <= j < |keys| ==> data[i].name != keys[j].name;
    forall name: string
      ensures Named(keys, name) ==> !Named(data, name)
      ensures Tracked(e, t, name)
    {
      DistinctSides(data, keys, name);
      assert SameComment(e, t, name);
      ReadBack(data, keys, name);
    }
  }

  /** Any change list the local catalog accepts, Glue accepts too, with equal columns, keys, properties,
      comment and location. The column comments read back are the entry's, except where an added column
      took the name of a key: there Glue keeps reading the comment the key had at that moment. */
  lemma AppliersAgree(e: TableEntry, t: TableInput, changes: seq<TableChange>)
    requires Same(e, t) && DistinctNames(t)
    requires AlterEntry(e, changes).Ok?
    ensures AllMappable(changes) && GlueChangeAll(t, changes).Ok?
    ensures var e', t' := AlterEntry(e, changes).value, GlueChangeAll(t, changes).value;
            && SameShape(e', t')
            && forall name: string ::
                 var frozen := if Named(Keys(t), name) then Frozen(Lookup(e.columnComments, name), changes, name) else None;
                 Lookup(Comments(Data(t') + Keys(t')), name) ==
                 if frozen.Some? then frozen else Lookup(e'.columnComments, name)
  {
    SameTracks(e, t);
    NoRefusal(e, changes);
    AlterTracks(e, t, changes);
    var e', t' := AlterEntry(e, changes).value, GlueChangeAll(t, changes).value;
    forall name: string
      ensures var frozen := if Named(Keys(t), name) then Frozen(Lookup(e.columnComments, name), changes, name) else None;
              Lookup(Comments(Data(t') + Keys(t')), name) ==
              if frozen.Some? then frozen else Lookup(e'.columnComments, name)
    {
      ReadsFrozen(e', t', name);
    }
  }

  /** A key's name is taken while it has a comment, and ends with another one: all of it can be read off
      the change list and the comment the key has before. */
  predicate Clashes(comment: Option<string>, changes: seq<TableChange>, name: string) {
    var frozen := Frozen(comment, changes, name);
    frozen.Some? && FinalComment(comment, changes, name) != frozen
  }

  /** So the two tables are the same afterwards exactly when the change list clashes with no key. */
  lemma AppliersAgreeExactly(e: TableEntry, t: TableInput, changes: seq<TableChange>)
    requires Same(e, t) && DistinctNames(t)
    requires AlterEntry(e, changes).Ok?
    ensures AllMappable(changes) && GlueChangeAll(t, changes).Ok?
    ensures Same(AlterEntry(e, changes).value, GlueChangeAll(t, changes).value) <==>
            forall name: string :: Named(Keys(t), name) ==> !Clashes(Lookup(e.columnComments, name), changes, name)
  {
    AppliersAgree(e, t, changes);
    NoRefusal(e, changes);
    hide SameShape, Comments, FinalComment, Frozen, Named, ChangeAll;
    var e', t' := AlterEntry(e, changes).value, GlueChangeAll(t, changes).value;
    forall name: string
      ensures SameComment(e', t', name) <==>
              (Named(Keys(t), name) ==> !Clashes(Lookup(e.columnComments, name), changes, name))
    {
      CommentsEndAs(e, changes, name);
    }
  }

  /** In particular when no added column takes a key's name. */
  lemma {:induction false} NeverFrozen(comment: Option<string>, changes: seq<TableChange>, name: string)
    requires forall c <- changes :: !Adds(c, name)
    ensures Frozen(comment, changes, name).None?
    decreases |changes|
  {
    if changes != [] {
      assert changes[0] in changes;
      NeverFrozen(CommentAfter(comment, changes[0], name), changes[1..], name);
    }
  }

  lemma AppliersAgreeOnNewNames(e: TableEntry, t: TableInput, changes: seq<TableChange>)
    requires Same(e, t) && DistinctNames(t)
    requires AlterEntry(e, changes).Ok?
    requires forall c <- changes :: c.AddColumns? ==> forall f <- c.fields :: !Named(Keys(t), f.name)
    ensures GlueChangeAll(t, changes).Ok?
    ensures Same(AlterEntry(e, changes).value, GlueChangeAll(t, changes).value)
  {
    AppliersAgreeExactly(e, t, changes);
    forall name: string | Named(Keys(t), name)
      ensures !Clashes(Lookup(e.columnComments, name), changes, name)
    {
      NeverFrozen(Lookup(e.columnComments, name), changes, name);
    }
  }

  /** And not always: adding a data column with the name of a key that has a comment, and commenting that
      name again, leaves Glue reading the first comment. */
  lemma TakenKeyDisagrees(k: string, was: string, now: string, location: string)
    returns (e: TableEntry, t: TableInput, changes: seq<TableChange>)
    requires was != "" && now != "" && was != now
    ensures Same(e, t) && DistinctNames(t) && AlterEntry(e, changes).Ok?
    ensures GlueChangeAll(t, changes).Ok? && !Same(AlterEntry(e, changes).value, GlueChangeAll(t, changes).value)
  {
    var ty := ArrowToHive(Utf8).value;
    var key, field := Column(k, Some(ty), Some(was)), HiveTypes.Field(k, Utf8, true);
    e := TableEntry(location, "", [], [(k, ty)], None, map[k := was], map[], map[]);
    t := TableInput(None, Some(StorageDescriptor(Some(location), Some([]))), Some([key]), None);
    changes := [AddColumns([field]), SetColumnComment(k, Some(now))];
    OneKeyIsSame(e, t, k, was, key);
    TakenIsAccepted(e, field, now, changes);
    TakenClashes(was, now, field, changes);
    AppliersAgreeExactly(e, t, changes);
    FirstIndexIs(Keys(t), k, 0);
    assert Named(Keys(t), k);
  }

  lemma OneKeyIsSame(e: TableEntry, t: TableInput, k: string, was: string, key: Column)
    requires was != "" && key.name == k && key.comment == Some(was) && key.ty.Some?
    requires e.columns == [] && e.partitionColumns == [(k, key.ty.value)] && e.comment == None
    requires e.columnComments == map[k := was] && e.properties == map[]
    requires t == TableInput(None, Some(StorageDescriptor(Some(e.location), Some([]))), Some([key]), None)
    ensures Same(e, t) && DistinctNames(t)
  {
    var all := Data(t) + Keys(t);
    assert all == [key];
    OneComment(key);
    assert forall name: string :: SameComment(e, t, name) by {
      hide Comments;
    }
    assert SameShape(e, t) by {
      hide Comments, WithSlash, NonEmpty;
    }
  }

  lemma OneComment(key: Column)
    requires NonEmpty(key.comment).Some?
    ensures Comments([key]) == map[key.name := key.comment.value]
  {
    assert [key][..0] == [];
  }

  lemma TakenIsAccepted(e: TableEntry, field: HiveTypes.Field, now: string, changes: seq<TableChange>)
    requires now != "" && field.dataType == Utf8
    requires e.columns == [] && |e.partitionColumns| == 1 && e.partitionColumns[0].0 == field.name
    requires changes == [AddColumns([field]), SetColumnComment(field.name, Some(now))]
    ensures AlterEntry(e, changes).Ok?
  {
    assert e.partitionColumns[0] in e.partitionColumns;
    assert Mappable([field]) && Check(e, changes[0]).None? && Check(e, changes[1]).None?;
  }

  lemma TakenClashes(was: string, now: string, field: HiveTypes.Field, changes: seq<TableChange>)
    requires now != "" && was != now
    requires changes == [AddColumns([field]), SetColumnComment(field.name, Some(now))]
    ensures Clashes(Some(was), changes, field.name)
  {
    assert Adds(changes[0], field.name) by {
      assert field in [field];
    }
    var k := field.name;
    assert changes[1..][0] == changes[1] && changes[1..][1..] == [];
    assert FinalComment(Some(was), changes, k) == FinalComment(Some(was), changes[1..], k);
    assert FinalComment(Some(was), changes[1..], k) == FinalComment(Some(now), [], k);
  }

  // ---- what only one of them accepts

  predicate Knows(t: TableInput, name: string) {
    Named(Data(t), name) || Named(Keys(t), name)
  }

  /** What a change asks of a table with a storage descriptor. */
  predicate Fits(t: TableInput, c: TableChange) {
    && (c.AddColumns? ==> Mappable(c.fields))
    && (c.SetColumnComment? ==> Knows(t, c.column))
  }

  lemma GlueChangeFits(t: TableInput, c: TableChange)
    requires t.storage.Some?
    ensures GlueChange(t, c).Ok? <==> Fits(t, c)
    ensures GlueChange(t, c).Ok? ==>
              var t' := GlueChange(t, c).value;
              t'.storage.Some? && forall name: string :: Knows(t', name) <==> Knows(t, name) || Adds(c, name)
  {
    if Fits(t, c) {
      var t' := GlueChange(t, c).value;
      forall name: string
        ensures Knows(t', name) <==> Knows(t, name) || Adds(c, name)
      {
        KnowsAfter(t, c, name);
      }
    }
  }

  lemma KnowsAfter(t: TableInput, c: TableChange, name: string)
    requires t.storage.Some? && Fits(t, c)
    ensures GlueChange(t, c).Ok?
    ensures Knows(GlueChange(t, c).value, name) <==> Knows(t, name) || Adds(c, name)
  {
    hide Named, ArrowToHive, FirstComment;
    match c
    case AddColumns(fields) => AddedNames(Data(t), fields, name);
    case SetColumnComment(column, text) =>
      if Named(Data(t), column) {
        SetFirstNames(Data(t), column, NonEmpty(text), name);
      } else {
        SetFirstNames(Keys(t), column, NonEmpty(text), name);
      }
    case _ =>
  }

  /** Every comment is for a column the table has or an earlier change adds. */
  predicate CommentsFollow(t: TableInput, changes: seq<TableChange>) {
    forall i :: 0 <= i < |changes| && changes[i].SetColumnComment? ==>
      Knows(t, changes[i].column) || exists j :: 0 <= j < i && Adds(changes[j], changes[i].column)
  }

  lemma CommentsFollowOn(t: TableInput, changes: seq<TableChange>, t': TableInput)
    requires changes != []
    requires forall name: string :: Knows(t', name) <==> Knows(t, name) || Adds(changes[0], name)
    requires changes[0].SetColumnComment? ==> Knows(t, changes[0].column)
    ensures CommentsFollow(t, changes) <==> CommentsFollow(t', changes[1..])
  {
    hide Knows, Adds;
    var rest := changes[1..];
    if CommentsFollow(t, changes) {
      forall i | 0 <= i < |rest| && rest[i].SetColumnComment?
        ensures Knows(t', rest[i].column) || exists j :: 0 <= j < i && Adds(rest[j], rest[i].column)
      {
        assert rest[i] == changes[i + 1];
        if j :| 0 <= j < i + 1 && Adds(changes[j], changes[i + 1].column) {
          assert j > 0 ==> rest[j - 1] == changes[j];
        }
      }
    }
    if CommentsFollow(t', rest) {
      forall i | 0 <= i < |changes| && changes[i].SetColumnComment?
        ensures Knows(t, changes[i].column) || exists j :: 0 <= j < i && Adds(changes[j], changes[i].column)
      {
        if i > 0 {
          assert rest[i - 1] == changes[i];
          if j :| 0 <= j < i - 1 && Adds(rest[j], rest[i - 1].column) {
            assert rest[j] == changes[j + 1];
          }
        }
      }
    }
  }

  /** The one-pass applier accepts exactly the lists whose types are mappable and whose comments follow their
      columns. */
  lemma {:induction false} GlueAcceptsExactly(t: TableInput, changes: seq<TableChange>)
    requires t.storage.Some?
    ensures GlueChangeAll(t, changes).Ok? <==> AllMappable(changes) && CommentsFollow(t, changes)
    decreases |changes|
  {
    if changes != [] {
      hide Knows, Mappable, Adds, GlueChange;
      GlueChangeFits(t, changes[0]);
      assert changes[0] in changes && forall c <- changes :: c == changes[0] || c in changes[1..];
      if GlueChange(t, changes[0]).Ok? {
        var t' := GlueChange(t, changes[0]).value;
        CommentsFollowOn(t, changes, t');
        GlueAcceptsExactly(t', changes[1..]);
      }
    }
  }

  /** It accepts a list the validating one refuses exactly when the list is fit for it and some comment is for a
      column that only the list itself adds. */
  lemma GlueAcceptsMore(e: TableEntry, t: TableInput, changes: seq<TableChange>)
    requires Same(e, t)
    ensures GlueChangeAll(t, changes).Ok? && AlterEntry(e, changes).Err? <==>
            && AllMappable(changes) && CommentsFollow(t, changes)
            && exists c <- changes :: c.SetColumnComment? && !Knows(t, c.column)
  {
    GlueAcceptsExactly(t, changes);
    NoRefusal(e, changes);
    forall c <- changes
      ensures Check(e, c).None? <==>
              (c.AddColumns? ==> Mappable(c.fields)) && (c.SetColumnComment? ==> Knows(t, c.column))
    {
      CheckKnows(e, t, c);
    }
    hide Check, Knows, Mappable, CommentsFollow, GlueChangeAll, FirstRefusal;
  }

  lemma CheckKnows(e: TableEntry, t: TableInput, c: TableChange)
    requires Same(e, t)
    ensures Check(e, c).None? <==>
            (c.AddColumns? ==> Mappable(c.fields)) && (c.SetColumnComment? ==> Knows(t, c.column))
  {
    hide Mappable, Named, HasColumn;
    if c.SetColumnComment? {
      SameNames(e.columns, Data(t), c.column);
      SameNames(e.partitionColumns, Keys(t), c.column);
    }
  }

  /** Adding a column and commenting it in one statement is such a list, for every new name. */
  lemma NewColumnWithComment(e: TableEntry, t: TableInput, field: HiveTypes.Field, text: Option<string>)
    requires Same(e, t) && !Knows(t, field.name) && ArrowToHive(field.dataType).Some?
    ensures var changes := [AddColumns([field]), SetColumnComment(field.name, text)];
            GlueChangeAll(t, changes).Ok? && AlterEntry(e, changes).Err?
  {
    var changes := [AddColumns([field]), SetColumnComment(field.name, text)];
    GlueAcceptsMore(e, t, changes);
    hide Knows, GlueChangeAll, ArrowToHive;
    assert field in [field] && Adds(changes[0], field.name);
    assert changes[1] in changes;
  }

  // ---- the loops

  lemma {:induction false} ChangeAllSnoc(e: TableEntry, changes: seq<TableChange>, i: nat)
    requires i < |changes| && AllMappable(changes)
    ensures AllMappable(changes[..i]) && AllMappable(changes[..i + 1])
    ensures ChangeAll(e, changes[..i + 1]) == Change(ChangeAll(e, changes[..i]), changes[i])
    decreases i
  {
    assert changes[0] in changes && changes[i] in changes;
    if i == 0 {
      assert changes[..1][1..] == [];
    } else {
      assert changes[..i + 1][1..] == changes[1..][..i] && changes[..i][1..] == changes[1..][..i - 1];
      assert AllMappable(changes[1..]) by {
        assert forall c <- changes[1..] :: c in changes;
      }
      ChangeAllSnoc(Change(e, changes[0]), changes[1..], i - 1);
    }
  }

  /** One change of the local applier, key by key and field by field. */
  method ApplyChange(e: TableEntry, c: TableChange) returns (r: TableEntry)
    requires c.AddColumns? ==> Mappable(c.fields)
    ensures r == Change(e, c)
  {
    match c
    case SetProperties(props) =>
      r := e.(properties := e.properties + props);
    case UnsetProperties(keys) =>
      var properties := e.properties;
      for i := 0 to |keys|
        invariant properties == e.properties - (set k | k in keys[..i])
      {
        properties := properties - {keys[i]};
      }
      assert keys[..|keys|] == keys;
      r := e.(properties := properties);
    case SetComment(text) =>
      r := e.(comment := text);
    case SetLocation(location) =>
      r := e.(location := location);
    case AddColumns(fields) =>
      var columns := e.columns;
      for i := 0 to |fields|
        invariant columns == e.columns + ToColumns(fields)[..i]
      {
        assert fields[i] in fields;
        columns := columns + [(fields[i].name, ArrowToHive(fields[i].dataType).value)];
      }
      r := e.(columns := columns);
    case SetColumnComment(column, text) =>
      if text.Some? && text.value != "" {
        r := e.(columnComments := e.columnComments[column := text.value]);
      } else {
        r := e.(columnComments := e.columnComments - {column});
      }
  }

  /** Validate every change against the entry, then apply them all. */
  method Alter(e: TableEntry, changes: seq<TableChange>) returns (r: Result<TableEntry>)
    ensures r == AlterEntry(e, changes)
  {
    for i := 0 to |changes|
      invariant FirstRefusal(e, changes) == FirstRefusal(e, changes[i..])
    {
      var refusal := Check(e, changes[i]);
      if refusal.Some? {
        return Err(refusal.value);
      }
    }
    NoRefusal(e, changes);
    var current := e;
    for i := 0 to |changes|
      invariant AllMappable(changes[..i]) && current == ChangeAll(e, changes[..i])
    {
      assert changes[i] in changes;
      ChangeAllSnoc(e, changes, i);
      current := ApplyChange(current, changes[i]);
    }
    assert changes[..|changes|] == changes;
    r := Ok(current);
  }

  /** The Glue applier; what it has changed so far is dropped with the error. */
  method ApplyTableChanges(t: TableInput, changes: seq<TableChange>) returns (r: Result<TableInput>)
    ensures r == GlueChangeAll(t, changes)
  {
    var current := t;
    for i := 0 to |changes|
      invariant GlueChangeAll(t, changes) == GlueChangeAll(current, changes[i..])
    {
      assert changes[i..][1..] == changes[i + 1..];
      current :- GlueChange(current, changes[i]);
    }
    r := Ok(current);
  }

  /** How `UpdateTable` ends: done, or reported as failed, whether or not it was done. */
  datatype Answer = Done | Failed(done: bool)

  /** `GetTable`, the changes, `UpdateTable`, and `GetTable` again for the answer. Nothing is sent unless the
      table was there and every change was applied, and then the whole new definition is. `reload` is what the
      second `GetTable` makes of the table there is by then. */
  method GlueAlter(stored: TableInput, got: Result<Option<TableInput>>, changes: seq<TableChange>, answer: Answer,
                   reload: TableInput -> Result<Option<TableInput>>)
    returns (after: TableInput, sent: bool, r: Result<TableInput>)
    requires got.Ok? && got.value.Some? ==> got.value.value == stored
    ensures sent <==> got.Ok? && got.value.Some? && GlueChangeAll(stored, changes).Ok?
    ensures !sent ==> after == stored && r == Err(
              if got.Err? then got.error else if got.value.None? then Plan else GlueChangeAll(stored, changes).error)
    ensures sent ==> after == if answer.Done? || answer.done then GlueChangeAll(stored, changes).value else stored
    ensures sent ==> r == if answer.Failed? then Err(Io) else Present(reload(after))
  {
    after, sent := stored, false;
    if got.Err? {
      return after, sent, Err(got.error);
    }
    if got.value.None? {
      return after, sent, Err(Plan);
    }
    var input := ApplyTableChanges(got.value.value, changes);
    if input.Err? {
      return after, sent, Err(input.error);
    }
    sent := true;
    if answer.Done? || answer.done {
      after := input.value;
    }
    if answer.Failed? {
      return after, sent, Err(Io);
    }
    r := Present(reload(after));
  }

  /** A `GetTable` that returns no table is an error. */
  function Present(got: Result<Option<TableInput>>): Result<TableInput> {
    match got
    case Err(e) => Err(e)
    case Ok(None) => Err(Plan)
    case Ok(Some(t)) => Ok(t)
  }
}
