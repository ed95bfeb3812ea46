/** Lake Formation data-cell filters: the definitions of a table, over pages, kept when a grant of the
    principal, over other pages, names them. */
module Filters {
  import opened Paging
  import opened Wrappers

  // ---- pages

  /** Another page is to be had: a token, not empty and not the one just sent. */
  predicate Continues<T>(service: Service<T>, k: nat) {
    var r := ResponseAt(service, k);
    r.Page? && r.next.Some? && r.next.value != "" && r.next != TokenAt(service, k)
  }

  /** The first `n` answers all lead on. */
  ghost predicate LeadsOn<T>(service: Service<T>, n: nat) {
    forall k: nat :: k < n ==> Continues(service, k)
  }

  /** The listing is complete after the n-th answer. */
  ghost predicate Complete<T>(service: Service<T>, n: nat) {
    LeadsOn(service, n) && Ends(service, n)
  }

  /** It breaks off there: a failed request, an empty token or the same token again. */
  ghost predicate Broken<T>(service: Service<T>, n: nat) {
    LeadsOn(service, n) && !Ends(service, n) && !Continues(service, n)
  }

  /** A listing is complete or broken at one point at most, whatever limit it is read with. */
  lemma OneOutcome<T>(service: Service<T>, m: nat, n: nat)
    requires Complete(service, m) || Broken(service, m)
    requires Complete(service, n) || Broken(service, n)
    ensures m == n && (Complete(service, m) <==> Complete(service, n))
  {
    assert !Continues(service, m) && !Continues(service, n);
    assert m < n ==> Continues(service, m);
    assert n < m ==> Continues(service, n);
  }

  /** Whether to go on; the token to send is written back. */
  method AdvancePagination(prev: Option<string>, next: Option<string>) returns (r: Result<bool>, prev': Option<string>)
    ensures r == if next.None? then Ok(false) else if next.value == "" || next == prev then Err(Io) else Ok(true)
    ensures prev' == if r == Ok(true) then next else prev
  {
    prev' := prev;
    match next
    case None => r := Ok(false);
    case Some(token) =>
      if token == "" || prev == Some(token) {
        r := Err(Io);
      } else {
        prev', r := Some(token), Ok(true);
      }
  }

  lemma LeadsOnMore<T>(service: Service<T>, k: nat)
    ensures LeadsOn(service, k + 1) <==> LeadsOn(service, k) && Continues(service, k)
  {
    assert k < k + 1;
  }

  // ---- grants

  datatype FilterResource = FilterResource(database: Option<string>, table: Option<string>, name: Option<string>)

  /** An entry of `ListPermissions`: the data-cell filter it is about, if it is about one, and the
      permissions. */
  datatype Grant = Grant(filterResource: Option<FilterResource>, permissions: seq<string>)

  function GrantName(g: Grant, database: string, table: string): Option<string> {
    if g.filterResource.None? then None
    else if g.filterResource.value.database != Some(database) then None
    else if g.filterResource.value.table != Some(table) then None
    else g.filterResource.value.name
  }

  /** The entry grants SELECT on the filter called `name` of the table. */
  predicate Grants(g: Grant, database: string, table: string, name: string) {
    g.filterResource == Some(FilterResource(Some(database), Some(table), Some(name))) && "SELECT" in g.permissions
  }

  lemma GrantNameIs(g: Grant, database: string, table: string, name: string)
    ensures GrantName(g, database, table) == Some(name) <==>
            g.filterResource == Some(FilterResource(Some(database), Some(table), Some(name)))
  {
  }

  function Granted(grants: seq<Grant>, database: string, table: string): set<string> {
    set g | g in grants && GrantName(g, database, table).Some? && "SELECT" in g.permissions ::
      GrantName(g, database, table).value
  }

  lemma GrantedMeans(grants: seq<Grant>, database: string, table: string, name: string)
    ensures name in Granted(grants, database, table) <==> exists g <- grants :: Grants(g, database, table, name)
  {
    hide GrantName;
    forall g <- grants
      ensures Grants(g, database, table, name) <==> GrantName(g, database, table) == Some(name) && "SELECT" in g.permissions
    {
      GrantNameIs(g, database, table, name);
    }
  }

  lemma GrantedSplit(a: seq<Grant>, b: seq<Grant>, database: string, table: string)
    ensures Granted(a + b, database, table) == Granted(a, database, table) + Granted(b, database, table)
  {
    hide GrantName;
    assert forall g :: g in a + b <==> g in a || g in b;
  }

  lemma NoneGranted(database: string, table: string)
    ensures Granted([], database, table) == {}
  {
  }

  /** The names granted on one page. */
  method AddGranted(items: seq<Grant>, database: string, table: string, names: set<string>) returns (all: set<string>)
    ensures all == names + Granted(items, database, table)
  {
    hide GrantName;
    all := names;
    for i := 0 to |items|
      invariant all == names + Granted(items[..i], database, table)
    {
      assert items[..i + 1] == items[..i] + [items[i]];
      GrantedSplit(items[..i], [items[i]], database, table);
      var name := GrantName(items[i], database, table);
      if name.Some? && "SELECT" in items[i].permissions {
        all := all + {name.value};
      }
    }
    assert items[..|items|] == items;
  }

  /** The paged listing of grants. Nothing is returned while the limit leaves it open. */
  method ListGrantedNames(service: Service<Grant>, database: string, table: string, limit: nat)
    returns (r: Option<Result<set<string>>>, ghost n: nat)
    ensures r.None? ==> LeadsOn(service, limit)
    ensures r.Some? && r.value.Ok? ==> Complete(service, n) && r.value.value == Granted(Items(service, n + 1), database, table)
    ensures r.Some? && r.value.Err? ==> Broken(service, n) && r.value.error == Io
  {
    hide Granted, ResponseAt;
    var names: set<string> := {};
    var token: Option<string> := None;
    n := 0;
    NoneGranted(database, table);
    for k := 0 to limit
      invariant LeadsOn(service, k) && token == TokenAt(service, k)
      invariant names == Granted(Items(service, k), database, table)
    {
      n := k;
      NextToken(service, k);
      LeadsOnMore(service, k);
      ResponseIs(service, k, token);
      match service(k, token)
      case Failure(_) => return Some(Err(Io)), n;
      case Page(items, next) =>
        GrantedSplit(Items(service, k), items, database, table);
        names := AddGranted(items, database, table, names);
        var more, token' := AdvancePagination(token, next);
        if more.Err? {
          return Some(Err(more.error)), n;
        }
        if !more.value {
          return Some(Ok(names)), n;
        }
        token := token';
    }
    r := None;
  }

  // ---- definitions

  datatype RowFilter = RowFilter(expression: Option<string>, allRows: bool)

  /** A filter as `ListDataCellsFilter` returns it; the wildcard is all columns but those it excludes. */
  datatype Definition = Definition(
    name: string,
    rows: Option<RowFilter>,
    wildcard: Option<Option<seq<string>>>,
    columns: Option<seq<string>>)

  datatype Rows = AllRows | Where(expression: string)
  datatype Columns = AllExcept(excluded: seq<string>) | Named(names: seq<string>)
  datatype TableFilter = TableFilter(name: string, columns: Columns, rows: Rows)

  function RowsOf(d: Definition): Option<Rows> {
    if d.rows.None? then None
    else if d.rows.value.expression.Some? then Some(Where(d.rows.value.expression.value))
    else if d.rows.value.allRows then Some(AllRows)
    else None
  }

  function ColumnsOf(d: Definition): Option<Columns> {
    if d.wildcard.Some? then Some(AllExcept(d.wildcard.value.GetOr([])))
    else if d.columns.GetOr([]) != [] then Some(Named(d.columns.value))
    else None
  }

  /** A definition that says which rows and which columns; one that does not is an error. */
  predicate Defined(d: Definition) {
    RowsOf(d).Some? && ColumnsOf(d).Some?
  }

  function FilterOf(d: Definition): TableFilter
    requires Defined(d)
  {
    TableFilter(d.name, ColumnsOf(d).value, RowsOf(d).value)
  }

  /** Which rows the definition lets through, if it says: those of its expression, or all of them. */
  predicate LetsThrough(d: Definition, rows: Rows) {
    match rows
    case Where(x) => d.rows.Some? && d.rows.value.expression == Some(x)
    case AllRows => d.rows.Some? && d.rows.value.expression.None? && d.rows.value.allRows
  }

  /** And which columns: all but those its wildcard excludes, or, without a wildcard, those it names. */
  predicate Exposes(d: Definition, columns: Columns) {
    match columns
    case AllExcept(excluded) => d.wildcard == Some(Some(excluded)) || (d.wildcard == Some(None) && excluded == [])
    case Named(names) => d.wildcard.None? && names != [] && d.columns == Some(names)
  }

  ghost predicate Describes(d: Definition, f: TableFilter) {
    f.name == d.name && LetsThrough(d, f.rows) && Exposes(d, f.columns)
  }

  /** It names no rows or no columns. */
  predicate Underspecified(d: Definition) {
    || d.rows.None? || (d.rows.value.expression.None? && !d.rows.value.allRows)
    || (d.wildcard.None? && (d.columns.None? || d.columns == Some([])))
  }

  /** A definition describes one filter, or none exactly when it names no rows or no columns. */
  lemma DefinedExactly(d: Definition)
    ensures Defined(d) <==> !Underspecified(d)
    ensures Defined(d) <==> exists f :: Describes(d, f)
    ensures Defined(d) ==> forall f :: Describes(d, f) <==> f == FilterOf(d)
  {
    if Defined(d) {
      assert Describes(d, FilterOf(d));
    }
    forall f | Describes(d, f)
      ensures Defined(d) && f == FilterOf(d)
    {
      RowsAreOf(d, f.rows);
      ColumnsAreOf(d, f.columns);
    }
  }

  lemma RowsAreOf(d: Definition, rows: Rows)
    requires LetsThrough(d, rows)
    ensures RowsOf(d) == Some(rows)
  {
  }

  lemma ColumnsAreOf(d: Definition, columns: Columns)
    requires Exposes(d, columns)
    ensures ColumnsOf(d) == Some(columns)
  {
  }

  predicate AllDefined(ds: seq<Definition>) {
    forall d <- ds :: Defined(d)
  }

  function FiltersOf(ds: seq<Definition>): (fs: seq<TableFilter>)
    requires AllDefined(ds)
    ensures |fs| == |ds|
    ensures forall i :: 0 <= i < |ds| ==> fs[i] == FilterOf(ds[i])
  {
    seq(|ds|, i requires 0 <= i < |ds| => assert ds[i] in ds; FilterOf(ds[i]))
  }

  lemma FiltersSplit(a: seq<Definition>, b: seq<Definition>)
    requires AllDefined(a) && AllDefined(b)
    ensures AllDefined(a + b) && FiltersOf(a + b) == FiltersOf(a) + FiltersOf(b)
  {
    hide Defined, FilterOf;
    assert forall d <- a + b :: d in a || d in b;
    var l, r := FiltersOf(a + b), FiltersOf(a) + FiltersOf(b);
    assert forall i :: 0 <= i < |l| ==> l[i] == r[i];
  }

  ghost predicate DescribeAll(ds: seq<Definition>, fs: seq<TableFilter>) {
    |fs| == |ds| && forall i :: 0 <= i < |ds| ==> Describes(ds[i], fs[i])
  }

  lemma FiltersDescribe(ds: seq<Definition>)
    requires AllDefined(ds)
    ensures DescribeAll(ds, FiltersOf(ds))
  {
    hide Defined, FilterOf, Describes;
    forall i | 0 <= i < |ds|
      ensures Describes(ds[i], FiltersOf(ds)[i])
    {
      assert ds[i] in ds;
      DefinedExactly(ds[i]);
    }
  }

  /** The filters of one page, or an error at the first that does not say enough. */
  method AddFilters(items: seq<Definition>, filters: seq<TableFilter>) returns (r: Result<seq<TableFilter>>)
    ensures r.Ok? <==> AllDefined(items)
    ensures r.Ok? ==> r.value == filters + FiltersOf(items)
    ensures r.Err? ==> r.error == Io
  {
    var all := filters;
    for i := 0 to |items|
      invariant AllDefined(items[..i]) && all == filters + FiltersOf(items[..i])
    {
      var rows, columns := RowsOf(items[i]), ColumnsOf(items[i]);
      if rows.None? || columns.None? {
        assert items[i] in items;
        return Err(Io);
      }
      assert items[..i + 1] == items[..i] + [items[i]];
      FiltersSplit(items[..i], [items[i]]);
      all := all + [TableFilter(items[i].name, columns.value, rows.value)];
    }
    assert items[..|items|] == items;
    r := Ok(all);
  }

  /** The paged listing of definitions. */
  method ListDefinitions(service: Service<Definition>, limit: nat)
    returns (r: Option<Result<seq<TableFilter>>>, ghost n: nat)
    ensures r.None? ==> LeadsOn(service, limit) && AllDefined(Items(service, limit))
    ensures r.Some? && r.value.Ok? ==>
              && Complete(service, n) && AllDefined(Items(service, n + 1))
              && r.value.value == FiltersOf(Items(service, n + 1))
              && DescribeAll(Items(service, n + 1), r.value.value)
    ensures r.Some? && r.value.Err? ==>
              && r.value.error == Io
              && (|| Broken(service, n)
                  || (LeadsOn(service, n) && exists d <- Items(service, n + 1) :: Underspecified(d)))
  {
    hide ResponseAt, Defined, FilterOf;
    var filters: seq<TableFilter> := [];
    var token: Option<string> := None;
    n := 0;
    for k := 0 to limit
      invariant LeadsOn(service, k) && token == TokenAt(service, k)
      invariant AllDefined(Items(service, k)) && filters == FiltersOf(Items(service, k))
    {
      n := k;
      NextToken(service, k);
      LeadsOnMore(service, k);
      ResponseIs(service, k, token);
      match service(k, token)
      case Failure(_) => return Some(Err(Io)), n;
      case Page(items, next) =>
        var page := AddFilters(items, filters);
        if page.Err? {
          var d :| d in items && !Defined(d);
          assert d in Items(service, k + 1);
          DefinedExactly(d);
          return Some(Err(page.error)), n;
        }
        FiltersSplit(Items(service, k), items);
        filters := page.value;
        var more, token' := AdvancePagination(token, next);
        if more.Err? {
          return Some(Err(more.error)), n;
        }
        if !more.value {
          FiltersDescribe(Items(service, k + 1));
          return Some(Ok(filters)), n;
        }
        token := token';
    }
    r := None;
  }

  // ---- the intersection

  /** The filters whose name is in the set, in order. */
  function Keep(fs: seq<TableFilter>, names: set<string>): seq<TableFilter> {
    if fs == [] then []
    else Keep(fs[..|fs| - 1], names) + if fs[|fs| - 1].name in names then [fs[|fs| - 1]] else []
  }

  lemma {:induction false} KeepMembers(fs: seq<TableFilter>, names: set<string>, f: TableFilter)
    ensures f in Keep(fs, names) <==> f in fs && f.name in names
    decreases |fs|
  {
    if fs != [] {
      KeepMembers(fs[..|fs| - 1], names, f);
      assert fs == fs[..|fs| - 1] + [fs[|fs| - 1]];
    }
  }

  lemma {:induction false} KeepInOrder(a: seq<TableFilter>, b: seq<TableFilter>, names: set<string>)
    ensures Keep(a + b, names) == Keep(a, names) + Keep(b, names)
    decreases |b|
  {
    if b == [] {
      assert a + b == a;
    } else {
      var front := b[..|b| - 1];
      assert (a + b)[..|a + b| - 1] == a + front && (a + b)[|a + b| - 1] == b[|b| - 1];
      KeepInOrder(a, front, names);
      var last := if b[|b| - 1].name in names then [b[|b| - 1]] else [];
      assert Keep(a, names) + Keep(front, names) + last == Keep(a, names) + (Keep(front, names) + last);
    }
  }

  /** What is to be resolved once both listings are complete: the definitions, in page order, that some
      grant names with SELECT. */
  function Resolved(grants: seq<Grant>, definitions: seq<Definition>, database: string, table: string): seq<TableFilter>
    requires AllDefined(definitions)
  {
    Keep(FiltersOf(definitions), Granted(grants, database, table))
  }

  method DataCellsFilters(grants: Service<Grant>, definitions: Service<Definition>, database: string, table: string, limit: nat)
    returns (r: Option<Result<seq<TableFilter>>>, ghost g: nat, ghost d: nat)
    ensures r.None? ==> LeadsOn(grants, limit) || (Complete(grants, g) && LeadsOn(definitions, limit))
    ensures r.Some? && r.value.Ok? ==>
              && Complete(grants, g)
              && var names := Granted(Items(grants, g + 1), database, table);
                 if names == {} then r.value.value == []
                 else
                   && Complete(definitions, d) && AllDefined(Items(definitions, d + 1))
                   && r.value.value == Resolved(Items(grants, g + 1), Items(definitions, d + 1), database, table)
    ensures r.Some? && r.value.Err? ==>
              && r.value.error == Io
              && (|| Broken(grants, g)
                  || (&& Complete(grants, g) && Granted(Items(grants, g + 1), database, table) != {}
                      && (|| Broken(definitions, d)
                          || (LeadsOn(definitions, d) && exists u <- Items(definitions, d + 1) :: Underspecified(u)))))
  {
    hide Complete, Broken, LeadsOn, Items, Granted, AllDefined;
    d := 0;
    var granted, k := ListGrantedNames(grants, database, table, limit);
    g := k;
    if granted.None? {
      return None, g, d;
    }
    if granted.value.Err? {
      return Some(Err(granted.value.error)), g, d;
    }
    var names := granted.value.value;
    if names == {} {
      return Some(Ok([])), g, d;
    }
    var listed, j := ListDefinitions(definitions, limit);
    d := j;
    if listed.None? {
      return None, g, d;
    }
    if listed.value.Err? {
      return Some(Err(listed.value.error)), g, d;
    }
    r := Some(Ok(Keep(listed.value.value, names)));
  }

  /** The result holds exactly the defined filters that a grant of SELECT on this database and table names;
      with no such grant it is empty. */
  lemma ResolvedExactly(grants: seq<Grant>, definitions: seq<Definition>, database: string, table: string, f: TableFilter)
    requires AllDefined(definitions)
    ensures f in Resolved(grants, definitions, database, table) <==>
            && (exists d <- definitions :: Describes(d, f))
            && (exists g <- grants :: Grants(g, database, table, f.name))
    ensures Granted(grants, database, table) == {} ==> Resolved(grants, definitions, database, table) == []
  {
    hide Defined, FilterOf, Describes;
    var fs := FiltersOf(definitions);
    assert forall i :: 0 <= i < |definitions| ==> definitions[i] in definitions;
    if f in fs {
      var i :| 0 <= i < |fs| && fs[i] == f;
      DefinedExactly(definitions[i]);
      assert Describes(definitions[i], f);
    }
    if d :| d in definitions && Describes(d, f) {
      DefinedExactly(d);
      var i :| 0 <= i < |definitions| && definitions[i] == d;
      assert fs[i] == f;
    }
    GrantedMeans(grants, database, table, f.name);
    KeepMembers(fs, Granted(grants, database, table), f);
    var out := Resolved(grants, definitions, database, table);
    if out != [] {
      KeepMembers(fs, Granted(grants, database, table), out[0]);
    }
  }

  /** A page that fails, or a token that is empty or the one just sent, is never followed by a result made
      of the pages before it: no limit gives a listing that is complete. */
  lemma BrokenIsNeverComplete<T>(service: Service<T>, n: nat)
    requires Broken(service, n)
    ensures forall m: nat :: !Complete(service, m)
  {
    forall m: nat
      ensures !Complete(service, m)
    {
      if Complete(service, m) {
        OneOutcome(service, m, n);
      }
    }
  }
}
