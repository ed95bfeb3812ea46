/** What becomes of a schema and its partition columns between a create and a load: exactly when they come back
    as they were. */
module SchemaOrder {
  import opened HiveTypes
  import opened Wrappers

  // ---- the schema

  lemma {:induction false} SelectMeans(schema: Schema, partitions: seq<string>, partition: bool)
    ensures forall f <- Select(schema, partitions, partition) :: (f.name in partitions) == partition
  {
    if schema != [] {
      SelectMeans(schema[..|schema| - 1], partitions, partition);
    }
  }

  /** Once a field is a partition field, so are all after it. */
  predicate PartitionsLast(schema: Schema, partitions: seq<string>) {
    forall i, j :: 0 <= i < j < |schema| && schema[i].name in partitions ==> schema[j].name in partitions
  }

  lemma InOrderMeansLast(schema: Schema, partitions: seq<string>)
    requires Select(schema, partitions, false) + Select(schema, partitions, true) == schema
    ensures PartitionsLast(schema, partitions)
  {
    var data, parts := Select(schema, partitions, false), Select(schema, partitions, true);
    SelectMeans(schema, partitions, false);
    SelectMeans(schema, partitions, true);
    hide Select;
    assert forall i :: 0 <= i < |data| ==> schema[i] == data[i] && data[i] in data;
    assert forall i :: |data| <= i < |schema| ==> schema[i] == parts[i - |data|] && schema[i] in parts;
  }

  lemma LastIsPartition(schema: Schema, partitions: seq<string>, d: Schema, p: Schema)
    requires schema != [] && PartitionsLast(schema, partitions) && p != []
    requires schema[..|schema| - 1] == d + p && forall f <- p :: f.name in partitions
    ensures schema[|schema| - 1].name in partitions
  {
    assert schema[|d|] == (d + p)[|d|] == p[0] && p[0] in p;
  }

  lemma {:induction false} LastMeansInOrder(schema: Schema, partitions: seq<string>)
    requires PartitionsLast(schema, partitions)
    ensures Select(schema, partitions, false) + Select(schema, partitions, true) == schema
  {
    if schema != [] {
      var front, last := schema[..|schema| - 1], schema[|schema| - 1];
      LastMeansInOrder(front, partitions);
      var d, p := Select(front, partitions, false), Select(front, partitions, true);
      SelectMeans(front, partitions, true);
      if p != [] {
        LastIsPartition(schema, partitions, d, p);
      }
      assert schema == front + [last];
      assert d + (p + [last]) == (d + p) + [last];
    }
  }

  /** The field comes back as it was. */
  predicate Kept(f: Field) {
    f.nullable && Recoverable(f.dataType) && Normal(f.dataType) == f.dataType
  }

  /** But for the types that do not come back at all. */
  predicate Normalised(f: Field) {
    f.nullable && Normal(f.dataType) == f.dataType
  }

  lemma RecoveredIsNormalised(schema: Schema)
    ensures Recovered(schema) == schema <==> forall f <- schema :: Normalised(f)
    ensures forall f <- Recovered(schema) :: Normalised(f)
  {
    var r := Recovered(schema);
    forall i | 0 <= i < |r|
      ensures Normalised(r[i]) && (r[i] == schema[i] <==> Normalised(schema[i]))
    {
      NormalTwice(schema[i].dataType);
    }
    assert forall i :: 0 <= i < |schema| ==> schema[i] in schema;
  }

  lemma SameFields(schema: Schema, partitions: seq<string>)
    ensures forall f :: f in Select(schema, partitions, false) + Select(schema, partitions, true) <==> f in schema
  {
    SelectCovers(schema, partitions);
  }

  /** Recovering a reordering of the fields gives the fields as they were exactly when there was nothing to
      reorder and nothing to recover. */
  lemma RecoveredInOrder(schema: Schema, moved: Schema)
    requires forall f :: f in moved <==> f in schema
    ensures Recovered(moved) == schema <==> moved == schema && forall f <- schema :: Normalised(f)
  {
    RecoveredIsNormalised(moved);
    hide Recovered, Normalised;
    if Recovered(moved) == schema {
      assert forall f <- moved :: Normalised(f);
    }
  }

  /** A created schema loads back as it was exactly when it has a field, its partition fields come last, and
      every field is nullable and of a type that comes back as it was. */
  lemma SchemaComesBack(schema: Schema, partitions: seq<string>)
    requires Mappable(schema)
    ensures var data, parts := Select(schema, partitions, false), Select(schema, partitions, true);
            ColumnsToSchema(ToColumns(data) + ToColumns(parts)) == Some(schema) <==>
            schema != [] && PartitionsLast(schema, partitions) && forall f <- schema :: Kept(f)
  {
    var data, parts := Select(schema, partitions, false), Select(schema, partitions, true);
    if schema == [] {
      assert ToColumns(data) + ToColumns(parts) == [];
    } else {
      hide ColumnsToSchema, ToColumns, Select, Recovered, Normal, Recoverable, PartitionsLast, ArrowToHive, Mappable;
      CreateThenLoad(schema, partitions);
      RecoveredConcat(data, parts);
      SameFields(schema, partitions);
      RecoveredInOrder(schema, data + parts);
      if PartitionsLast(schema, partitions) {
        LastMeansInOrder(schema, partitions);
      }
      if data + parts == schema {
        InOrderMeansLast(schema, partitions);
      }
    }
  }

  // ---- the partition columns

  /** The names in order. */
  function FieldNames(schema: Schema): (names: seq<string>)
    ensures |names| == |schema| && forall i :: 0 <= i < |names| ==> names[i] == schema[i].name
  {
    seq(|schema|, i requires 0 <= i < |schema| => schema[i].name)
  }

  /** `ix` picks, from left to right, fields with the given names. */
  predicate Picks(schema: Schema, names: seq<string>, ix: seq<nat>) {
    && |ix| == |names| <= |schema|
    && (forall i :: 0 <= i < |ix| ==> ix[i] < |schema| && schema[ix[i]].name == names[i])
    && forall i, j :: 0 <= i < j < |ix| ==> ix[i] < ix[j]
  }

  /** And they are all the fields named in `wanted`. */
  ghost predicate PicksAll(schema: Schema, wanted: seq<string>, names: seq<string>, ix: seq<nat>) {
    && Picks(schema, names, ix)
    && forall j: nat :: j < |schema| ==> (schema[j].name in wanted <==> j in ix)
  }

  /** The greatest position comes last. */
  lemma LastPosition(ix: seq<nat>, n: nat)
    requires n in ix && (forall i :: 0 <= i < |ix| ==> ix[i] <= n) && forall i, j :: 0 <= i < j < |ix| ==> ix[i] < ix[j]
    ensures |ix| > 0 && ix == ix[..|ix| - 1] + [n]
    ensures forall j :: j in ix <==> j in ix[..|ix| - 1] || j == n
    ensures forall i :: 0 <= i < |ix| - 1 ==> ix[i] < n
  {
    var i, k :| 0 <= i < |ix| && ix[i] == n && k == |ix| - 1;
    assert ix[i] <= ix[k];
    assert ix == ix[..k] + [n];
  }

  /** The last field is picked last. */
  lemma PickLess(schema: Schema, wanted: seq<string>, names: seq<string>, ix: seq<nat>)
    requires schema != [] && PicksAll(schema, wanted, names, ix) && schema[|schema| - 1].name in wanted
    ensures var n, k := |schema| - 1, |ix| - 1;
            k >= 0 && names == names[..k] + [schema[n].name] && PicksAll(schema[..n], wanted, names[..k], ix[..k])
  {
    var n, k := |schema| - 1, |ix| - 1;
    LastPosition(ix, n);
    PickCount(ix[..k], n);
    assert Picks(schema[..n], names[..k], ix[..k]);
  }

  /** Or is not wanted. */
  lemma PickSame(schema: Schema, wanted: seq<string>, names: seq<string>, ix: seq<nat>)
    requires schema != [] && PicksAll(schema, wanted, names, ix) && schema[|schema| - 1].name !in wanted
    ensures PicksAll(schema[..|schema| - 1], wanted, names, ix)
  {
    assert forall i :: 0 <= i < |ix| ==> ix[i] in ix;
    PickCount(ix, |schema| - 1);
  }

  /** Different positions below `n` are at most `n`. */
  lemma {:induction false} PickCount(ix: seq<nat>, n: nat)
    requires forall i, j :: 0 <= i < j < |ix| ==> ix[i] < ix[j]
    requires forall i :: 0 <= i < |ix| ==> ix[i] < n
    ensures |ix| <= n
    decreases |ix|
  {
    if ix != [] {
      var k := |ix| - 1;
      PickCount(ix[..k], ix[k]);
    }
  }

  lemma PickMore(schema: Schema, wanted: seq<string>, names: seq<string>, ix: seq<nat>)
    requires schema != [] && PicksAll(schema[..|schema| - 1], wanted, names, ix)
    ensures var n := |schema| - 1;
            if schema[n].name in wanted then PicksAll(schema, wanted, names + [schema[n].name], ix + [n])
            else PicksAll(schema, wanted, names, ix)
  {
    var n := |schema| - 1;
    assert forall j: nat :: j < n ==> schema[..n][j] == schema[j];
    assert forall i :: 0 <= i < |ix| ==> ix[i] < n;
    assert forall j :: j in ix + [n] <==> j in ix || j == n;
  }

  lemma SelectLast(schema: Schema, wanted: seq<string>)
    requires schema != []
    ensures var n := |schema| - 1;
            FieldNames(Select(schema, wanted, true)) ==
            if schema[n].name in wanted then FieldNames(Select(schema[..n], wanted, true)) + [schema[n].name]
            else FieldNames(Select(schema[..n], wanted, true))
  {
  }

  lemma {:induction false} PickedAreSelected(schema: Schema, wanted: seq<string>, names: seq<string>, ix: seq<nat>)
    requires PicksAll(schema, wanted, names, ix)
    ensures FieldNames(Select(schema, wanted, true)) == names
    decreases |schema|
  {
    if schema != [] {
      hide Select, PicksAll;
      var n, k := |schema| - 1, |ix| - 1;
      SelectLast(schema, wanted);
      if schema[n].name in wanted {
        PickLess(schema, wanted, names, ix);
        PickedAreSelected(schema[..n], wanted, names[..k], ix[..k]);
      } else {
        PickSame(schema, wanted, names, ix);
        PickedAreSelected(schema[..n], wanted, names, ix);
      }
    }
  }

  lemma {:induction false} SelectedArePicked(schema: Schema, wanted: seq<string>) returns (ix: seq<nat>)
    ensures PicksAll(schema, wanted, FieldNames(Select(schema, wanted, true)), ix)
    decreases |schema|
  {
    ix := [];
    if schema != [] {
      hide Select, PicksAll;
      var n := |schema| - 1;
      ix := SelectedArePicked(schema[..n], wanted);
      PickMore(schema, wanted, FieldNames(Select(schema[..n], wanted, true)), ix);
      SelectLast(schema, wanted);
      if schema[n].name in wanted {
        ix := ix + [n];
      }
    }
  }

  /** The stored partition columns are the list that was asked for exactly when that list picks, from left to
      right, all the fields it names. */
  lemma PartitionsComeBack(schema: Schema, partitions: seq<string>)
    ensures FieldNames(Select(schema, partitions, true)) == partitions <==>
            exists ix :: PicksAll(schema, partitions, partitions, ix)
  {
    if FieldNames(Select(schema, partitions, true)) == partitions {
      var ix := SelectedArePicked(schema, partitions);
    }
    if ix :| PicksAll(schema, partitions, partitions, ix) {
      PickedAreSelected(schema, partitions, partitions, ix);
    }
  }
}
