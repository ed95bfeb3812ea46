# Oxidant, modelled in Dafny

A model of the parts of Oxidant where correctness is hardest to see, with proofs. Nothing was executed.

- **The versioned manifest** (`Manifest*.dfy`, `VersionNames.dfy`). The local catalog keeps its state as numbered
  files on an object store: list, read the highest, mutate, create the next if absent, prune what is more than ten
  below. `ManifestLog` is the step system of any number of loads and updates, one store request a step, so its runs
  are the interleavings. `ManifestSafety` is the invariant, `ManifestTheorems` what follows from it for all runs
  whose puts happen while the highest version is at most eleven above the one the writer listed,
  `ManifestWindow` that this and the other bounds are exact, `ManifestWriters` that up to eight writers need no such condition.
  `ManifestStores` has the retry loops themselves, shown to take only steps of that system.
- **The catalog on top of it** (`Catalog*.dfy`, `AlterTable.dfy`, `HiveTypes.dfy`, `HiveNames.dfy`,
  `SchemaOrder.dfy`, `TableFormats.dfy`). Statements on string keys refine a plain map, one at a time, in sequence
  and concurrently; `CatalogStatements` says what each does to the loads after it. `ALTER TABLE` is compared with its
  Glue counterpart, whose changes `GlueChanges.dfy` gives part by part.
- **The Hive metastore codec** (`Thrift*.dfy`, `Utf8*.dfy`). The Apache Thrift binary protocol: readers and a
  recursive skip as total functions of the remaining bytes, values as trees, the class that reads a stream and the
  buffer that is written, with UTF-8 as in section 4 of RFC 3629.
- **Smaller cores.** `CivilDate.dfy` (calendar date of a day count), `Qualify*.dfy` (the table qualifier and
  its tokenizer), `Csv.dfy` (rows as in section 2 of RFC 4180), `Repair.dfy` (partition repair), `Filters.dfy`
  (Lake Formation filters; `Paging.dfy` is a listing in pages), `Sniff.dfy` and `Discover*.dfy` (tables found by
  a scan).

Code that updates things in place is a method or a class here (`ManifestStore`, `Draft`, `MetastoreClient`,
`WriteBuffer`, `GlueTable` and the loops), proved against a specification function; the theorems are about the
functions. `Wrappers.dfy`, `Strings.dfy`, `Sorting.dfy` and `Collections.dfy` are shared helpers.
`dafny verify dfyconfig.toml` checks everything.

Where the code does less than its comments say, the model follows the code:

- The manifest's comments call create-only writes a real conflict signal. They are one only within the window:
  after twelve commits a pruned name can be created again (`ManifestWindow.LateUpdateIsLost`). The comment on
  retention says a reader cannot be reading a version that is pruned; it can, from eleven commits on
  (`ManifestWindow.ReadWindowIsExact`), and the read loop retries.
- The comment on `TableEntry` says partition columns are in key order; they are in schema order, so a create can
  answer with another order than a load (`CatalogRefinement.CreatedAnswersAsLoaded` says when).
- `create_database` with `if_not_exists` still replaces the comment and the location of an existing database
  (`CatalogRefinement.IfNotExistsReplaces`).
- The qualifier's description says aliases and qualified references pass through. The alias of a quoted name,
  the table of a quoted database and the database of a quoted table do not
  (`QualifyTheorems.AliasOfQuotedNameIsRewritten`, `QualifyTheorems.TableOfQuotedDatabaseIsRewritten`,
  `QualifyTheorems.DatabaseOfQuotedTableIsRewritten`); `QualifyPositions.PositionsAreExact` says what is rewritten.
- The two `ALTER TABLE` appliers differ on the comment of a partition key whose name an added column takes
  (`AlterTables.TakenKeyDisagrees`); `AlterTables.AppliersAgreeExactly` says when they agree. The Glue one also
  accepts a list that comments a column it adds itself (`AlterTables.GlueAcceptsMore`).
- What a scan shows depends on the listing order when one depth uses two keys, or when a name that stops the scan
  meets one that decides the format (`Discovery.OrderMattersExactly`; `Discovery.TwoKeysShowInOrder` and
  `Discovery.WideNameStopsInOrder` are listings of either kind). Such a name is one whose suffix test would
  slice inside a character (`Sniffing.PanicsExactly`).
- A partition key with `=` or `/` is never found again by a repair (`Repairs.PathRoundTrip`).

## Model

| member | source | states |
|---|---|---|
| `ManifestLog.Highest` | crates/oxidant-catalog-local/src/manifest.rs:150-155 | the last of the sorted listing: -1 exactly when there is no version, otherwise a version present with none above it |
| `ManifestSafety.StepKeeps` | crates/oxidant-catalog-local/src/manifest.rs:150-254 | every step of any call (list, get, create-if-absent put, prune listing, delete, and each of them failing, a failed put or delete done or not) whose put is in the window keeps the protocol invariant over files, log, running and returned calls |
| `ManifestSafety.WindowBlocks` | crates/oxidant-catalog-local/src/manifest.rs:203-230 | a put in the window finds its name taken unless it is the next version: pruning has not freed it |
| `ManifestSafety.RunKeeps` | crates/oxidant-catalog-local/src/manifest.rs:203-254 | the invariant holds after every run whose puts are in the window |
| `ManifestTheorems.NoLostUpdate` | crates/oxidant-catalog-local/src/manifest.rs:203-254 | in every such run the versions ever created are 0 up to the highest present, each once, each the committing call's mutation of the one before; what readers resolve is the fold of all committed mutations in commit order |
| `ManifestTheorems.OneCommitPerSuccess` | crates/oxidant-catalog-local/src/manifest.rs:203-239 | a call owns at most one commit, made while it ran: one that returned success owns one, one that was told its put failed may, no other returned call does |
| `ManifestTheorems.Linearizable` | crates/oxidant-catalog-local/src/manifest.rs:139-239 | each successful load or update takes effect at one point between its invocation and its return, a load returns the manifest of that point, and calls that do not overlap take effect in the order they ran; so successive loads never go back and an empty manifest means nothing was committed |
| `ManifestTheorems.EveryVersionWasCurrent` | crates/oxidant-catalog-local/src/manifest.rs:150-181 | every prefix of the log was, at some moment of the run, all there was, and resolving the files at that moment gives its last manifest |
| `ManifestTheorems.LoadsAreAtomic` | crates/oxidant-catalog-local/src/manifest.rs:139-181 | what a load returns is what the store resolved to at its last listing, a step of the run while the load was in flight; it is the empty manifest of a fresh store exactly when there was no commit |
| `ManifestTheorems.FailuresAreEarned` | crates/oxidant-catalog-local/src/manifest.rs:151-181 | giving up took at least 8 commits by others during the call, a disappeared version at least 44, and a failed call left nothing in the log unless a put it was told had failed was done |
| `ManifestTheorems.AnswersAreTrue` | crates/oxidant-catalog-local/src/manifest.rs:203-239 | a refused update refused a manifest that was current while it ran and committed nothing; a committed one is the mutation of the version right before its own |
| `ManifestWindow.ElevenCommitsAreSafe` | crates/oxidant-catalog-local/src/manifest.rs:207-230 | a put at most 11 commits after its listing is in the window, and if its name is free it becomes the highest version |
| `ManifestWindow.LateUpdateIsLost` | crates/oxidant-catalog-local/src/manifest.rs:207-254 | for every delay of 12 commits or more there is a run in which the put succeeds on a pruned name, the caller is told so, and no reader sees the change |
| `ManifestWindow.WindowIsExact` | crates/oxidant-catalog-local/src/manifest.rs:241-254 | a put about to be lost after g commits by others exists if and only if g is at least 12 |
| `ManifestWindow.ReadWindowIsExact` | crates/oxidant-catalog-local/src/manifest.rs:41-46 | a listed version gone when it is read after g commits by others exists if and only if g is at least 11 |
| `ManifestWindow.GivingUpTakesEight` | crates/oxidant-catalog-local/src/manifest.rs:31-37 | an update giving up after g commits by others exists if and only if g is at least 8 |
| `ManifestWindow.DisappearingTakesFortyFour` | crates/oxidant-catalog-local/src/manifest.rs:151-181 | a read failing for good after g commits by others exists if and only if g is at least 44 |
| `ManifestWriters.FewWritersStayInWindow` | crates/oxidant-catalog-local/src/manifest.rs:324-357 | with at most 8 writers every run stays in the window by itself |
| `ManifestWriters.EightWritersNeverGiveUp` | crates/oxidant-catalog-local/src/manifest.rs:37-46 | with at most 8 writers and any number of readers, in every interleaving, no call gives up and none loses the version it listed |
| `ManifestWriters.EveryTableSurvives` | crates/oxidant-catalog-local/src/manifest.rs:324-357 | when up to 8 writers each insert their own table and all have returned, all succeeded and the resolved manifest holds every table |
| `ManifestStores.ManifestStore.ListVersions` | crates/oxidant-catalog-local/src/manifest.rs:184-201 | the versions present, ascending, ending in the highest |
| `ManifestStores.ManifestStore.TryRead` | crates/oxidant-catalog-local/src/manifest.rs:150-160 | one attempt to read: the listing step, then the get step, of the step system, with any steps of others and any request failure in between |
| `ManifestStores.ManifestStore.TryGet` | crates/oxidant-catalog-local/src/manifest.rs:156-180 | the get of the listed version: read, gone with tries left, gone for the last time, or failed, each as the step system has it |
| `ManifestStores.ManifestStore.LoadVersioned` | crates/oxidant-catalog-local/src/manifest.rs:150-181 | the retry loop ends where the step system goes on from a finished load, or with the failure it records |
| `ManifestStores.ManifestStore.DeleteAll` | crates/oxidant-catalog-local/src/manifest.rs:248-253 | this call deletes the listed versions and nothing else, lowest first, one step of the system each, a failed delete leaving its file, and the update returns success |
| `ManifestStores.ManifestStore.Prune` | crates/oxidant-catalog-local/src/manifest.rs:241-254 | pruning takes exactly the steps of the system and the update returns success whether or not it fails |
| `ManifestStores.ManifestStore.Below` | crates/oxidant-catalog-local/src/manifest.rs:242-248 | the versions more than ten below the current one and no others, still ascending |
| `ManifestStores.ManifestStore.TryPut` | crates/oxidant-catalog-local/src/manifest.rs:216-234 | one put: created and pruned, lost with tries left, lost for the last time, or failed with its file created or not, each as the step system has it |
| `ManifestStores.ManifestStore.Update` | crates/oxidant-catalog-local/src/manifest.rs:203-239 | the retry loop, run against any interference of others, takes only steps of the step system and returns the outcome the system records for an update with this mutation; in a run whose puts are in the window the call then owns at most one commit, which is this mutation of the version before, owns the version it returns on success, and on a refusal owns none, the mutation having refused a version of the log |
| `ManifestStores.ManifestStore.Load` | crates/oxidant-catalog-local/src/manifest.rs:139-141 | likewise for a load; in such a run what it returns is what the files resolved to at its own last listing |
| `VersionNames.NameRoundTrip` | crates/oxidant-catalog-local/src/manifest.rs:49-56 | every u64 version is parsed back from its file name |
| `VersionNames.NameOrderIsVersionOrder` | crates/oxidant-catalog-local/src/manifest.rs:48-51 | file names are in dictionary order exactly when their versions are in numeric order |
| `VersionNames.NameShape` | crates/oxidant-catalog-local/src/manifest.rs:48-51 | a name is twenty decimal digits and `.json` |
| `VersionNames.VersionsExactly` | crates/oxidant-catalog-local/src/manifest.rs:53-56 | which file names are versions, and of which number: digits with an optional plus, within a u64, and `.json` |
| `ThriftWire.Skip` | crates/oxidant-catalog-hive/src/thrift.rs:413-461 | on every byte sequence and every type code, skipping ends with an error or with strictly fewer bytes; the remaining bytes bound the recursion through lists, maps and structs |
| `ThriftWire.SkipFields` | crates/oxidant-catalog-hive/src/thrift.rs:435-443 | skipping a struct leaves strictly fewer bytes |
| `ThriftWire.I16RoundTrip` | crates/oxidant-catalog-hive/src/thrift.rs:479-504 | a 16-bit value is read back from its encoding, leaving what follows |
| `ThriftWire.I32RoundTrip` | crates/oxidant-catalog-hive/src/thrift.rs:486-507 | a 32-bit value is read back from its encoding, leaving what follows |
| `ThriftWire.BigEndian16` | crates/oxidant-catalog-hive/src/thrift.rs:502-504 | the two bytes of a 16-bit value, most significant first, are its value modulo 2^16 |
| `ThriftWire.BigEndian32` | crates/oxidant-catalog-hive/src/thrift.rs:505-507 | the four bytes of a 32-bit value, most significant first, are its value modulo 2^32 |
| `ThriftWire.BlobRoundTrip` | crates/oxidant-catalog-hive/src/thrift.rs:463-511 | a length-prefixed string whose length fits in an i32 is read back, leaving what follows |
| `Utf8Chars.ValidExactly` | crates/oxidant-catalog-hive/src/thrift.rs:493-499 | the strings that are accepted are exactly the encodings of sequences of characters |
| `ThriftValues.SkipIsExact` | crates/oxidant-catalog-hive/src/thrift.rs:418-461 | for every well-formed value of every type, nested to any depth, skip consumes exactly its encoding |
| `ThriftValues.SkipFieldsIsExact` | crates/oxidant-catalog-hive/src/thrift.rs:435-443 | and for every field list, exactly its encoding and the stop byte |
| `ThriftValues.SkipManyIsExact` | crates/oxidant-catalog-hive/src/thrift.rs:444-450 | and for every list or set, exactly its elements |
| `ThriftValues.SkipPairsIsExact` | crates/oxidant-catalog-hive/src/thrift.rs:451-458 | and for every map, exactly its entries |
| `ThriftTable.ReadTable` | crates/oxidant-catalog-hive/src/thrift.rs:248-273 | the struct reader is total: an error or a strictly shorter remainder on every byte sequence |
| `ThriftTable.ReadSchemas` | crates/oxidant-catalog-hive/src/thrift.rs:315-339 | likewise for the column list |
| `ThriftTable.ReadStringMap` | crates/oxidant-catalog-hive/src/thrift.rs:372-395 | likewise for the parameter map |
| `ThriftTable.TableReadsBack` | crates/oxidant-catalog-hive/src/thrift.rs:248-273 | reading the encoding of any well-formed field list gives the meaning of those fields, field by field in order, or the error it calls for, and leaves exactly what follows |
| `ThriftTable.StorageReadsBack` | crates/oxidant-catalog-hive/src/thrift.rs:275-295 | likewise for the storage descriptor |
| `ThriftTable.SerdeReadsBack` | crates/oxidant-catalog-hive/src/thrift.rs:297-313 | likewise for the SerDe info |
| `ThriftTable.SchemasReadBack` | crates/oxidant-catalog-hive/src/thrift.rs:315-339 | likewise for the list of field schemas |
| `ThriftTable.StringMapReadsBack` | crates/oxidant-catalog-hive/src/thrift.rs:372-395 | likewise for the parameters, entries of other types skipped |
| `ThriftFields.TableByLast` | crates/oxidant-catalog-hive/src/thrift.rs:248-340 | by field ids alone, for every well-formed table: location, input format, SerDe library and columns are those of the last such field over all storage descriptors, partition keys, parameters and table type those of the last such field of the table; each column is the name and the type of one struct of its list, each parameter the key and the value of one entry; the partition columns are the names of the partition keys |
| `ThriftFields.PartitionsAreNamed` | crates/oxidant-catalog-hive/src/thrift.rs:258-262 | on every byte sequence that is read, the i-th partition column is the name of the i-th partition key, and there are no others |
| `ThriftTruncation.TruncatedTableFails` | crates/oxidant-catalog-hive/src/thrift.rs:248-273 | a well-formed table cut off anywhere before its last byte is an error |
| `ThriftTruncation.TruncatedValueFails` | crates/oxidant-catalog-hive/src/thrift.rs:413-461 | likewise for skipping a value of any type and depth |
| `ThriftTruncation.UnknownTypeFails` | crates/oxidant-catalog-hive/src/thrift.rs:458-458 | no type code outside the protocol is skipped |
| `ThriftTruncation.WireTypes` | crates/oxidant-catalog-hive/src/thrift.rs:17-28 | the type codes are those of the Apache Thrift binary protocol |
| `ThriftTruncation.StopIsZero` | crates/oxidant-catalog-hive/src/thrift.rs:397-404 | a struct ends with the byte 0 |
| `ThriftTruncation.NegativeIsEmpty` | crates/oxidant-catalog-hive/src/thrift.rs:315-330 | a negative length or count is read as zero, by the readers and by skip |
| `ThriftCompat.UnknownFieldsAreHarmless` | crates/oxidant-catalog-hive/src/thrift.rs:248-339 | two tables that differ only in fields the readers do not match, at any depth of the nested structs, read as the same table |
| `ThriftCompat.InsertedFieldIsHarmless` | crates/oxidant-catalog-hive/src/thrift.rs:248-273 | inserting a field whose id and type the table reader does not match, anywhere between its fields, leaves what is read unchanged |
| `ThriftCompat.InsertedInStorageIsHarmless` | crates/oxidant-catalog-hive/src/thrift.rs:275-295 | likewise anywhere inside the storage descriptor |
| `ThriftCompat.InsertedInSerdeIsHarmless` | crates/oxidant-catalog-hive/src/thrift.rs:297-313 | likewise anywhere in the SerDe info of a storage descriptor |
| `ThriftCompat.InsertedInColumnIsHarmless` | crates/oxidant-catalog-hive/src/thrift.rs:315-339 | likewise anywhere in any column of a storage descriptor |
| `ThriftCompat.InsertedInKeyIsHarmless` | crates/oxidant-catalog-hive/src/thrift.rs:315-339 | likewise anywhere in any partition key |
| `ThriftCompat.NewTableRoundTrip` | crates/oxidant-catalog-hive/src/thrift.rs:564-600 | reading what is written for a new table, followed by any bytes, returns its location, input format, SerDe library, ordered columns, partition keys and `EXTERNAL_TABLE`, and leaves exactly those bytes; for all strings that are valid UTF-8 and sizes that fit in an i32 |
| `ThriftFields.WrittenTable` | crates/oxidant-catalog-hive/src/thrift.rs:564-600 | what a metastore finds by field id in the struct that is written: table name, database name, storage descriptor, partition keys with their types, no parameters and `EXTERNAL_TABLE` |
| `ThriftFields.WrittenStorage` | crates/oxidant-catalog-hive/src/thrift.rs:570-588 | likewise in its storage descriptor: columns with their types, location, both formats, SerDe library and its parameters |
| `ThriftClient.MetastoreClient.Skip` | crates/oxidant-catalog-hive/src/thrift.rs:413-461 | the recursive skip over the stream does what the specification function says and advances the stream accordingly |
| `ThriftClient.MetastoreClient.TakeSchemas` | crates/oxidant-catalog-hive/src/thrift.rs:315-339 | the nested field loops over the stream read what the specification says |
| `ThriftClient.MetastoreClient.TakeStringMap` | crates/oxidant-catalog-hive/src/thrift.rs:372-395 | the entry loop over the stream reads what the specification says |
| `ThriftClient.MetastoreClient.TakeSerdeLib` | crates/oxidant-catalog-hive/src/thrift.rs:297-313 | the field loop over the stream reads what the specification says |
| `ThriftClient.MetastoreClient.TakeStorageDescriptor` | crates/oxidant-catalog-hive/src/thrift.rs:275-295 | the field loop over the stream reads what the specification says |
| `ThriftClient.MetastoreClient.TakeTable` | crates/oxidant-catalog-hive/src/thrift.rs:248-273 | the field loop over the stream reads what the specification says, so the round trip and the compatibility results are about it |
| `ThriftClient.WriteBuffer.AppendSchemas` | crates/oxidant-catalog-hive/src/thrift.rs:520-533 | the buffer grows by exactly the encoding of the column list |
| `ThriftClient.WriteBuffer.AppendStringMap` | crates/oxidant-catalog-hive/src/thrift.rs:534-545 | the buffer grows by exactly the encoding of the map |
| `ThriftClient.WriteBuffer.PutNewTable` | crates/oxidant-catalog-hive/src/thrift.rs:564-600 | the buffer grows by exactly the encoding of the table struct that reads back |
| `HiveTypes.TypeRoundTrip` | crates/oxidant-catalog/src/hive_types.rs:44-128 | printing then parsing a mappable type gives its normal form, and gives nothing exactly for a decimal of precision 0 |
| `HiveTypes.NormalIsIdempotent` | crates/oxidant-catalog/src/hive_types.rs:44-128 | the normal form prints and parses to itself; a decimal is its own normal form at every precision from 1 to 255 and every i8 scale |
| `HiveTypes.DecimalReadsBack` | crates/oxidant-catalog/src/hive_types.rs:77-102 | `decimal(p,s)` is parsed back as written for every u8 p other than 0 and every i8 s, the sign included |
| `HiveNames.TypesExactly` | crates/oxidant-catalog/src/hive_types.rs:44-102 | for every string and every type, which strings are read as it: the synonyms, `varchar(n)` and `char(n)`, bare `decimal`, and `decimal` or `numeric` with a precision that is not 0 and an optional scale, both in range; case and spaces aside, and nothing else |
| `HiveNames.PrintsHiveNames` | crates/oxidant-catalog/src/hive_types.rs:109-128 | what is printed is one of the names of Hive itself or a decimal, never a synonym |
| `HiveNames.SignExactly` | crates/oxidant-catalog/src/hive_types.rs:123-123 | a scale is printed with a minus exactly when it is negative |
| `HiveNames.PrintsShort` | crates/oxidant-catalog/src/hive_types.rs:123-123 | numerals are printed without needless zeros |
| `HiveNames.TrimExactly` | crates/oxidant-catalog/src/hive_types.rs:45-45 | trimming cuts off spaces at both ends, and all of them |
| `HiveNames.SpacesExactly` | crates/oxidant-catalog/src/hive_types.rs:45-45 | which characters are spaces, by code point |
| `HiveTypes.SchemaToColumns` | crates/oxidant-catalog/src/hive_types.rs:137-157 | the loop refuses exactly the schemas with an unmappable type; otherwise it gives the data columns and the partition columns, both in schema order |
| `HiveTypes.SelectCovers` | crates/oxidant-catalog/src/hive_types.rs:137-157 | the split loses no field and duplicates none: each is in the part its name calls for |
| `HiveTypes.SchemaFromColumns` | crates/oxidant-catalog/src/hive_types.rs:24-41 | the loop is all or nothing: no schema when there is no column or one has an unknown type |
| `HiveTypes.CreateThenLoad` | crates/oxidant-catalog/src/hive_types.rs:24-157 | the stored columns of any non-empty mappable schema give back the data fields and then the partition fields, in schema order, nullable and normalised; none at all when a decimal has precision 0 |
| `SchemaOrder.SchemaComesBack` | crates/oxidant-catalog/src/hive_types.rs:24-157 | the schema loads back as it was created if and only if it has a field, its partition fields come last, and each field is nullable and of a type that is its own normal form and no decimal of precision 0 |
| `SchemaOrder.PartitionsComeBack` | crates/oxidant-catalog/src/hive_types.rs:143-156 | the stored partition columns are the list that was asked for if and only if that list picks, from left to right, all the fields it names |
| `AlterTables.AlterEntry` | crates/oxidant-catalog-local/src/lib.rs:587-660 | the change list is accepted exactly when every change is admissible for the entry as it was before any of them |
| `AlterTables.Alter` | crates/oxidant-catalog-local/src/lib.rs:587-660 | the validate loop and the apply loop together do just that |
| `AlterTables.ApplyChange` | crates/oxidant-catalog-local/src/lib.rs:612-657 | one change, key by key and field by field |
| `AlterTables.ApplyTableChanges` | crates/oxidant-catalog-glue/src/lib.rs:754-851 | the one-pass loop over a Glue definition |
| `GlueChanges.PropertiesDo` | crates/oxidant-catalog-glue/src/lib.rs:757-770 | key by key, what setting and unsetting properties leaves; nothing else changes |
| `GlueChanges.CommentAndLocationDo` | crates/oxidant-catalog-glue/src/lib.rs:771-787 | an empty comment is stored as none and a location with a slash at its end; a location needs a storage descriptor |
| `GlueChanges.AddColumnsDoes` | crates/oxidant-catalog-glue/src/lib.rs:788-813 | new columns come last with their Hive types and no comment; an unmappable type and a missing storage descriptor are the errors |
| `GlueChanges.ColumnCommentDoes` | crates/oxidant-catalog-glue/src/lib.rs:814-850 | the comment goes to the first data column of the name, else to the first partition key, and to no other; an empty one removes it; no such column is an error |
| `AlterTables.GlueAlter` | crates/oxidant-catalog-glue/src/lib.rs:350-385 | `UpdateTable` is sent exactly when the table was there and every change was applied, with the whole new definition; otherwise the stored table is untouched and the first error is returned; a failed `UpdateTable` is an error whether or not it was done; after a successful one the answer is the fresh load |
| `AlterTables.AppliersAgree` | crates/oxidant-catalog-glue/src/lib.rs:716-851 | whatever the validating applier accepts the one-pass applier accepts, from equal tables with distinct names, with equal columns, keys and properties, equal comment up to empty-to-none and location up to a trailing slash; the comments read back are equal but where an added column took the name of a key: there the key's comment of that moment is read |
| `AlterTables.AppliersAgreeExactly` | crates/oxidant-catalog-glue/src/lib.rs:716-851 | so the tables are the same afterwards if and only if the change list, read together with the comment a key has before it, does not take the name of a key that has a comment and leave it with another one |
| `AlterTables.AppliersAgreeOnNewNames` | crates/oxidant-catalog-glue/src/lib.rs:716-851 | in particular when no added column takes the name of a partition key |
| `AlterTables.TakenKeyDisagrees` | crates/oxidant-catalog-glue/src/lib.rs:716-851 | for every key name and two comments, a table and a change list on which they disagree |
| `AlterTables.GlueAcceptsExactly` | crates/oxidant-catalog-glue/src/lib.rs:754-851 | the one-pass applier accepts a list if and only if every added column has a Hive type and every commented column is in the table or added earlier in the list |
| `AlterTables.GlueAcceptsMore` | crates/oxidant-catalog-glue/src/lib.rs:716-851 | it accepts a list the validating applier refuses if and only if the list is such and comments a column that was not in the table before it |
| `AlterTables.NewColumnWithComment` | crates/oxidant-catalog-glue/src/lib.rs:716-851 | adding a column and commenting it in one statement is such a list, for every new name |
| `Catalogs.Draft.InsertTable` | crates/oxidant-catalog-local/src/lib.rs:461-470 | the edit of CREATE TABLE: the entry under its key, and its database if it was not there |
| `Catalogs.Draft.InsertDatabase` | crates/oxidant-catalog-local/src/lib.rs:495-511 | the edit of CREATE DATABASE, refused when it exists and may not; when it may, comment and location are replaced |
| `Catalogs.Draft.DropDatabase` | crates/oxidant-catalog-local/src/lib.rs:516-544 | the edit of DROP DATABASE with its loops over the keys: refused when unknown or, without CASCADE, not empty |
| `Catalogs.Draft.DropTable` | crates/oxidant-catalog-local/src/lib.rs:558-564 | the edit of DROP TABLE |
| `Catalogs.Draft.AlterTable` | crates/oxidant-catalog-local/src/lib.rs:587-663 | the edit of ALTER TABLE: all of the changes or the draft as it was |
| `Catalogs.ListTables` | crates/oxidant-catalog-local/src/lib.rs:396-429 | for every database name, dotted or not: a table is listed if and only if loading it succeeds, in ascending order, once each |
| `Catalogs.ListNamespaces` | crates/oxidant-catalog-local/src/lib.rs:374-394 | exactly the declared databases, those of the manifest and those its keys imply, in ascending order, once each; nothing below the top level |
| `CatalogRefinement.KeyCollision` | crates/oxidant-catalog-local/src/manifest.rs:117-119 | two (database, table) pairs have the same key exactly when they are equal or one database name continues the other after a dot and the table name makes up for it |
| `CatalogRefinement.KeyIsInjective` | crates/oxidant-catalog-local/src/manifest.rs:117-119 | between dot-free database names keys are unambiguous |
| `CatalogRefinement.OnlyRelatedNamesInterfere` | crates/oxidant-catalog-local/src/lib.rs:431-566 | some operation on one database changes what another shows if and only if the names are equal or one continues the other after a dot |
| `CatalogRefinement.StaysHome` | crates/oxidant-catalog-local/src/lib.rs:431-663 | no operation on one database changes a table of an unrelated one |
| `CatalogRefinement.DropEmpties` | crates/oxidant-catalog-local/src/lib.rs:514-545 | a drop that succeeds leaves neither the database nor any table of it, and without CASCADE removes no table |
| `CatalogRefinement.OperationRefines` | crates/oxidant-catalog-local/src/lib.rs:431-663 | each operation on the string-keyed manifest is accepted or refused, with the same error, as on a plain map from (database, table) to entry, and the two still hold the same tables |
| `CatalogRefinement.StatementsRefine` | crates/oxidant-catalog-local/src/lib.rs:374-663 | every sequence of statements on dot-free databases gets the answers the plain map would give, by rules of its own for each statement, and leaves the same tables; no managed table ever has a declared one's name |
| `CatalogRefinement.CatalogRefines` | crates/oxidant-catalog-local/src/lib.rs:374-663 | in particular from a catalog that was never written: every answer and every load is that of the plain map |
| `CatalogRefinement.DeclaredAreFixed` | crates/oxidant-catalog-local/src/lib.rs:414-585 | after any statements a declared table loads with its declared location, format, storage options and partition columns and nothing else, and each statement that targets it is refused |
| `CatalogRefinement.LoadAgrees` | crates/oxidant-catalog-local/src/lib.rs:414-429 | a load from the manifest is a load from the plain map |
| `CatalogRefinement.NamespacesAgree` | crates/oxidant-catalog-local/src/lib.rs:374-394 | the listed databases are the declared ones and those created and not dropped |
| `CatalogRefinement.ConcurrentOperationsRefine` | crates/oxidant-catalog-local/src/lib.rs:431-663 | for any interleaving of catalog operations in the window, what readers resolve is the plain map after the committed operations in commit order, none of them refused |
| `CatalogRefinement.RefusedAlterCommitsNothing` | crates/oxidant-catalog-local/src/lib.rs:587-663 | a refused ALTER commits no version, having refused what was current while it ran; a committed one is the version before with all of the changes |
| `CatalogRefinement.CreatedTableLoads` | crates/oxidant-catalog-local/src/lib.rs:215-246 | a created table loads with its location and format, its partition columns in schema order, and its schema as recovered from the stored type names |
| `CatalogRefinement.CreatedAnswersAsLoaded` | crates/oxidant-catalog-local/src/lib.rs:472-477 | what CREATE TABLE answers and what is loaded next differ at most in schema and partition columns; the partition columns are equal if and only if the list given picks, from left to right, all the fields it names, the schemas if and only if there is a field, partition fields come last and every field is nullable and of a type that comes back |
| `CatalogRefinement.ReversedPartitionsDiffer` | crates/oxidant-catalog-local/src/lib.rs:472-477 | two partition columns given in the other order are loaded in schema order |
| `CatalogRefinement.IfNotExistsReplaces` | crates/oxidant-catalog-local/src/lib.rs:495-511 | allowed when the database exists, CREATE DATABASE leaves the catalog as it was if and only if its entry is the one there; there is always an entry that is replaced |
| `CatalogStatements.DropDatabaseDoes` | crates/oxidant-catalog-local/src/lib.rs:514-544 | without CASCADE a database that has tables is not dropped; one that is not there is an error unless IF EXISTS is said; otherwise the database and all its tables are gone and nothing else changes |
| `CatalogStatements.CreateDatabaseDoes` | crates/oxidant-catalog-local/src/lib.rs:479-512 | refused exactly when it is there and IF NOT EXISTS is not said, or when its name is needed for a location and is no identifier; else it has the given comment and the given or default location, and nothing else changes |
| `CatalogStatements.DropTableDoes` | crates/oxidant-catalog-local/src/lib.rs:547-569 | refused exactly for a bad namespace, a declared table, or one that is not there without IF EXISTS; else that table is gone and nothing else |
| `CatalogStatements.CreateTableDoes` | crates/oxidant-catalog-local/src/lib.rs:431-477 | each refusal with its error; else only that table changes, and its database is added empty if it was not there and kept as it is if it was |
| `CatalogStatements.LoadShows` | crates/oxidant-catalog-local/src/lib.rs:215-245 | a load shows each part of the entry, the names of its partition columns in order, and Parquet for a format that is not known; no entry is an error |
| `CatalogStatements.AlterTableDoes` | crates/oxidant-catalog-local/src/lib.rs:571-662 | each refusal with its error; else the next load differs from the one before by each change in turn, to properties, comment, location and column comments, and by the added fields between the data and the partition fields of the schema; storage options, format, name and partition columns stay |
| `CatalogStatements.AlterRefuses` | crates/oxidant-catalog-local/src/lib.rs:594-622 | the error is that of the first change the entry as it was does not admit: an unmappable type, or a comment for a column it has not |
| `CatalogStatements.AlterKeeps` | crates/oxidant-catalog-local/src/lib.rs:623-658 | no change list touches the stored format, the storage options or the partition columns |
| `CatalogStatements.IdentifiersExactly` | crates/oxidant-catalog/src/hive_types.rs:213-222 | identifiers by code point: ASCII letters, digits and underscores, at least one |
| `CatalogRefinement.LocationsAreApart` | crates/oxidant-catalog-local/src/lib.rs:177-201 | a default location needs plain identifiers and is the warehouse without its trailing slashes, the database with `.db`, and the table; none is at or below another table's; a given location skips the check and is kept but for an added trailing slash |
| `TableFormats.FormatReadsBack` | crates/oxidant-catalog-local/src/lib.rs:670-678 | each format is recovered from the name it is stored under |
| `TableFormats.ProvidersExactly` | crates/oxidant-catalog/src/lib.rs:57-66 | which strings name which format, spaces and case aside |
| `CivilDate.CivilIsExact` | crates/oxidant-bench/src/main.rs:947-959 | every day count gives a date that exists and whose number of days since 1 January 1970 is that count |
| `CivilDate.DayNumberCounts` | crates/oxidant-bench/src/main.rs:947-959 | the reference: day numbers start at 0 on 1 January 1970 and go up by one from each date to the next under the 4/100/400 rule |
| `CivilDate.CivilFollowsCalendar` | crates/oxidant-bench/src/main.rs:947-959 | day 0 is 1 January 1970 and day n + 1 is the calendar successor of day n |
| `CivilDate.CivilInverts` | crates/oxidant-bench/src/main.rs:947-959 | every calendar date is the date of its own day number |
| `CivilDate.CivilIsInjective` | crates/oxidant-bench/src/main.rs:947-959 | different days have different dates |
| `Qualify.ScanTail` | bench/tpcds/run-ec2-connect.py:156-174 | the lookahead loop consumes exactly the dotted tail and nothing of the spacing after it |
| `Qualify.Scan` | bench/tpcds/run-ec2-connect.py:130-151 | what a token that is not a name in table position does to the flags and the stack |
| `Qualify.QualifyTokens` | bench/tpcds/run-ec2-connect.py:107-185 | the loop writes the text of the rewriting the theorems are about |
| `Qualify.JoinQualified` | bench/tpcds/run-ec2-connect.py:175-177 | what a table name is replaced by: `glue`, the database and the lower-cased name, with dots |
| `QualifyTheorems.OnlyTablesChange` | bench/tpcds/run-ec2-connect.py:107-185 | erasing the inserted prefixes gives back the input tokens, and only known table names get one |
| `QualifyTheorems.OpaqueUntouched` | bench/tpcds/run-ec2-connect.py:128-129 | string literals, quoted names and comments come out as they went in, in order |
| `QualifyTheorems.Idempotent` | bench/tpcds/run-ec2-connect.py:152-181 | the rewritten tokens pass through the rewriter unchanged, from every state and for every database name |
| `QualifyText.TokensSpell` | bench/tpcds/run-ec2-connect.py:83-90 | the tokens of a text spell it, with nothing lost, and each is the token at the front of what is left |
| `QualifyText.LexedAgain` | bench/tpcds/run-ec2-connect.py:83-90 | tokens that are each at the front of the text from them on are the tokens of that text |
| `QualifyText.CutsAsWrittenExactly` | bench/tpcds/run-ec2-connect.py:119-185 | the rewritten text of every query is cut into the rewritten tokens if and only if the database name is a word; so no inserted prefix runs into its neighbours, or opens or closes a literal or a comment |
| `QualifyText.TextIdempotent` | bench/tpcds/run-ec2-connect.py:119-185 | for a database whose name is a word, the rewriting of text, tokenizer included, leaves its own output as it is |
| `QualifyLexing.TokensExactly` | bench/tpcds/run-ec2-connect.py:83-90 | for every text, which token it starts with, by the shape of the text alone: the longest literal with its quotes doubled, a line comment to the end of its line, a block comment to its first end, a whole word, a whole stretch of space, or one character |
| `QualifyLexing.AsciiClasses` | bench/tpcds/run-ec2-connect.py:86-87 | the ASCII word characters and spaces, by code point |
| `QualifyPositions.PositionsAreExact` | bench/tpcds/run-ec2-connect.py:122-183 | for every token of every query, from the tokens before and after it alone: it is rewritten if and only if it is a known table name that no dot and word follow, that is not in the dotted tail of another name, and before which FROM, JOIN, INTO or a comma of the FROM list comes with only spaces, literals, comments and other punctuation in between; brackets are matched by reading back, without a stack |
| `QualifyPositions.WordsExactly` | bench/tpcds/run-ec2-connect.py:93-104 | the words and the punctuation that open, close and continue a FROM list |
| `QualifyPositions.EndingsExactly` | bench/tpcds/run-ec2-connect.py:95-100 | the words that end it |
| `QualifyPositions.TablesExactly` | bench/tpcds/run-ec2-connect.py:24-49 | the table names that are known |
| `QualifyTheorems.AliasOfQuotedNameIsRewritten` | bench/tpcds/run-ec2-connect.py:107-117 | an alias of a quoted name is rewritten when it is a known table name |
| `QualifyTheorems.TableOfQuotedDatabaseIsRewritten` | bench/tpcds/run-ec2-connect.py:153-155 | a known table after a quoted database name and a dot is rewritten |
| `QualifyTheorems.DatabaseOfQuotedTableIsRewritten` | bench/tpcds/run-ec2-connect.py:152-181 | a known table name with a dot and a quoted name after it is rewritten |
| `CsvRows.ParseCsvLine` | crates/oxidant-bench/src/tpcds.rs:587-607 | the loop computes the specified cells |
| `CsvRows.RowReadsBack` | crates/oxidant-bench/src/tpc_kits.rs:193-206 | parsing a written row returns exactly its cells, for every non-empty list of cells with any content |
| `CsvRows.CellExactly` | crates/oxidant-bench/src/tpc_kits.rs:193-206 | a cell is written as it is exactly when it has no comma, quote or line break, and otherwise between quotes with its own doubled |
| `CsvRows.PlainLineSplits` | crates/oxidant-bench/src/tpcds.rs:587-607 | a line without quotes is cut at its commas and nowhere else |
| `CsvRows.WriteRow` | crates/oxidant-bench/src/tpc_kits.rs:193-206 | the loop with the `first` flag writes the specified row |
| `CsvRows.PipeToCsv` | crates/oxidant-bench/src/tpc_kits.rs:166-208 | the header line comes first, then one line for each row that is not blank, each parsing back as its row, in order; an error exactly at the first row whose width is not that of the header, after the lines before it were written |
| `CsvRows.HeaderReadsBack` | crates/oxidant-bench/src/tpc_kits.rs:172-172 | a header whose names need no quotes parses back as those names |
| `CsvRows.KitRowComesThrough` | crates/oxidant-bench/src/tpc_kits.rs:173-183 | a row whose cells have no bar comes through, but for a single empty cell |
| `Repairs.PathRoundTrip` | crates/oxidant-catalog-glue/src/lib.rs:855-891 | the directories of a partition path give its values back if and only if no key has `=` or `/` in it; otherwise the partition is not found |
| `Repairs.FoundIsBuilt` | crates/oxidant-catalog-glue/src/lib.rs:876-891 | directories that are read as a partition are those of the path built for its values, which are valid |
| `Repairs.DirReadsBack` | crates/oxidant-catalog/src/hive_types.rs:226-236 | one directory gives its value back exactly when the key has no `=` and the value is valid |
| `Repairs.DiscoverPartitions` | crates/oxidant-catalog-glue/src/lib.rs:910-925 | the loop finds the partitions that hold an object, each once, all with valid values |
| `Repairs.WrittenIsFound` | crates/oxidant-catalog-glue/src/lib.rs:897-925 | a partition written under its path is discovered from any file in it |
| `Repairs.FoundExactly` | crates/oxidant-catalog-glue/src/lib.rs:876-925 | a partition is found if and only if its values are valid, no key has a `=`, and some object lies right in the directories `key=value` of its keys |
| `Repairs.ValuesExactly` | crates/oxidant-catalog/src/hive_types.rs:226-236 | a value is valid if and only if it is not empty and has no slash, no backslash and no two dots in a row |
| `Repairs.GlueTable.RegisterAll` | crates/oxidant-catalog-glue/src/lib.rs:460-487 | the loop over batches of one to 100 sends a prefix of the missing partitions, all of them unless a batch is refused, each paired with the location of its own values; what becomes registered is at its own location and nothing registered before changes |
| `Repairs.GlueTable.Inputs` | crates/oxidant-catalog-glue/src/lib.rs:462-474 | one input for each partition, in order, with the location of its own values; the check of the values never refuses a discovered partition |
| `Repairs.GlueTable.SendBatch` | crates/oxidant-catalog-glue/src/lib.rs:460-487 | one batch: the partitions of the chunk, each with its location, are sent as one request, and what the service takes of it is registered there |
| `Repairs.LocationReadsBack` | crates/oxidant-catalog-glue/src/lib.rs:855-891 | the directories of a location below the table read back as exactly its values, when no key has `=` or `/`, and as no partition otherwise |
| `Repairs.ListPartitions` | crates/oxidant-catalog-glue/src/lib.rs:387-414 | the loop over pages returns the values of all pages in order, or the error of the page that failed |
| `Repairs.GlueTable.RepairTable` | crates/oxidant-catalog-glue/src/lib.rs:416-488 | for each answer of `GetTable` and the scan that settles it the error, or 0 for a table without keys, and nothing is sent; for a table with keys and a location, a scan that succeeded and pages that end: no partition is sent twice, none that was registered or not found, each with the location of its own values, in batches of at most 100; only a refused batch is an error; else the count is the number missing, which is the number added exactly when all that was sent was registered; accepted batches make the registered set the union |
| `Repairs.SecondRepairAddsNothing` | crates/oxidant-catalog-glue/src/lib.rs:447-459 | after accepted batches a second repair over the same directories sends no batch and counts 0, whatever the service would do |
| `Filters.OneOutcome` | crates/oxidant-catalog-lakeformation/src/lib.rs:228-263 | a paged listing is complete or broken at one request only |
| `Filters.BrokenIsNeverComplete` | crates/oxidant-catalog-lakeformation/src/lib.rs:196-297 | a failed page or a bad token is never followed by a result made of the pages before it |
| `Filters.ListGrantedNames` | crates/oxidant-catalog-lakeformation/src/lib.rs:219-265 | for every server behaviour, the names granted with SELECT on this database and table over all pages up to the last, or an error exactly where the listing breaks |
| `Filters.ListDefinitions` | crates/oxidant-catalog-lakeformation/src/lib.rs:271-297 | for every server behaviour, the filter each definition describes, in page order, or an error where the listing breaks or a definition names no rows or no columns |
| `Filters.DataCellsFilters` | crates/oxidant-catalog-lakeformation/src/lib.rs:196-216 | the granted definitions of two complete listings in page order, empty without asking for definitions when nothing is granted, and otherwise an error |
| `Filters.ResolvedExactly` | crates/oxidant-catalog-lakeformation/src/lib.rs:209-215 | a filter is in the result if and only if some definition describes it and some grant of SELECT on this database, this table and its name is there |
| `Filters.DefinedExactly` | crates/oxidant-catalog-lakeformation/src/lib.rs:430-468 | on the fields of a definition: its rows are those of its expression, or all rows when it has none and the wildcard; its columns are all but those its wildcard excludes, or, without a wildcard, those it names; it describes one filter, or none exactly when it names no rows or no columns |
| `Filters.GrantedMeans` | crates/oxidant-catalog-lakeformation/src/lib.rs:240-262 | a name is granted if and only if an entry is about the filter of that name on this database and table and lists SELECT |
| `Filters.KeepInOrder` | crates/oxidant-catalog-lakeformation/src/lib.rs:211-214 | filtering by name keeps the order of pages and treats each filter on its own |
| `Discovery.Gather` | crates/oxidant-catalog-local/src/lib.rs:263-303 | one object of the listing: its table's entries, and its partition keys by depth where none is known yet |
| `Discovery.DiscoverTables` | crates/oxidant-catalog-local/src/lib.rs:250-341 | the loops give the tables the listing shows: those of its directories and, in listing order, those of its bare files; or nothing, exactly when some directory has a name that stops the scan |
| `Discovery.OrderDoesNotMatter` | crates/oxidant-catalog-local/src/lib.rs:254-325 | for every reordering of the listing a directory whose entries are settled shows a table of the same name, location and format, and of the same partition columns when each depth uses one key |
| `Discovery.OrderMattersExactly` | crates/oxidant-catalog-local/src/lib.rs:254-325 | every order shows the same under a name if and only if its entries are settled and, for a plain format, each depth uses one key |
| `DiscoveryShows.DirectoryShows` | crates/oxidant-catalog-local/src/lib.rs:302-325 | by the names in the listing alone, for a directory whose files have ASCII names: a table exactly when they show a format, and then at its name below the root, with that format, no options, and partition columns for the plain formats only |
| `DiscoveryShows.SniffsExactly` | crates/oxidant-catalog-local/src/discover.rs:65-102 | Delta by a `_delta_log` directory, else Iceberg by a `metadata` directory or a `.metadata.json` file, else Parquet, CSV or JSON by the suffix of any file, in that order |
| `DiscoveryShows.BareFileExactly` | crates/oxidant-catalog-local/src/discover.rs:105-119 | a bare file has the format its extension names and the name of its stem |
| `DiscoveryShows.ExtensionExactly` | crates/oxidant-catalog-local/src/discover.rs:59-63 | the extension is what follows the last dot, lower-cased, if it is ASCII letters and digits |
| `DiscoveryShows.NoExtension` | crates/oxidant-catalog-local/src/discover.rs:59-119 | a name without a dot has no extension and no format, and is its own stem |
| `DiscoveryShows.FileTablesSplit` | crates/oxidant-catalog-local/src/lib.rs:326-341 | the bare files become tables one by one, in listing order |
| `DiscoveryShows.OneFileTable` | crates/oxidant-catalog-local/src/lib.rs:326-341 | each at its own path below the root, without options or partition columns |
| `DiscoveryShows.BareFilesSplit` | crates/oxidant-catalog-local/src/lib.rs:272-275 | the files right under the root are gathered in listing order |
| `DiscoveryShows.OneBareFile` | crates/oxidant-catalog-local/src/lib.rs:272-275 | they are the paths of one segment |
| `DiscoveryShows.FirstKeyExactly` | crates/oxidant-catalog-local/src/lib.rs:290-296 | the key of a depth is that of the first path with a `key=value` directory there |
| `DiscoveryShows.NoKeyAtAll` | crates/oxidant-catalog-local/src/lib.rs:290-296 | a depth where no path has such a directory has no key |
| `DiscoveryShows.KeysAreWithin` | crates/oxidant-catalog-local/src/lib.rs:290-296 | no depth beyond the longest path has a key, so none is left out |
| `DiscoveryShows.ColumnsInOrder` | crates/oxidant-catalog-local/src/lib.rs:310-316 | the partition columns are the keys of the depths that have one, outermost first |
| `DiscoveryShows.WideNameStops` | crates/oxidant-catalog-local/src/lib.rs:302-308 | listed before a Parquet file, a name of three characters of three bytes stops the scan; listed after it, the table is shown |
| `Discovery.TwoKeysShowInOrder` | crates/oxidant-catalog-local/src/lib.rs:294-325 | for every two keys: two directories of one table, `key=value` with either, show another partition column in the other order |
| `Discovery.WideNameStopsInOrder` | crates/oxidant-catalog-local/src/lib.rs:254-293 | for every name of three characters of three bytes: beside a Parquet file it stops the scan in one order and not in the other |
| `Discovery.AsciiListingSettles` | crates/oxidant-catalog-local/src/lib.rs:277-293 | the entries of a directory whose files have ASCII names are settled, and the scan does not stop at it |
| `Discovery.DeltaLogDecides` | crates/oxidant-catalog-local/src/discover.rs:65-77 | a table with a Delta log is Delta with no partition columns, whatever lies beside it |
| `Sniffing.PanicsExactly` | crates/oxidant-catalog-local/src/discover.rs:82-90 | the byte slice of a suffix test stops the scan if and only if the name is longer than the suffix in bytes and no tail of its characters is as long |
| `Sniffing.WideNamePanics` | crates/oxidant-catalog-local/src/discover.rs:82-90 | three characters of three bytes against a suffix of eight stop it |
| `Sniffing.AsciiTest` | crates/oxidant-catalog-local/src/discover.rs:82-90 | on ASCII names the test is that of a suffix, case aside, shorter than the name |
| `DiscoveryShows.WidthExactly` | crates/oxidant-catalog-local/src/discover.rs:86-89 | the bytes of a character, as in section 3 of RFC 3629 |
| `Sniffing.SettledIsSniffed` | crates/oxidant-catalog-local/src/discover.rs:65-102 | entries that, in the first kind of suffix anything answers to, all answer the same have that outcome in every order |
| `Sniffing.UnsettledDecides` | crates/oxidant-catalog-local/src/discover.rs:65-102 | other entries hold two, a match and one that stops the scan, of which whichever leads decides |
| `Discovery.PushUnique` | crates/oxidant-catalog-local/src/lib.rs:345-349 | entries are added at the end, once each |
| `DiscoveryShows.EntriesOnce` | crates/oxidant-catalog-local/src/lib.rs:345-349 | no entry of a directory is listed twice |

## Left out

- Distributed planning, shuffle, streaming, pipelines, gRPC, the UI, timing and result files, data generation, Python registration scripts: no part of this model.
- The object store is an atomic map: a listing is one step, and files with other names in the directory do not occur.
- The JSON form of the manifest, and so corrupt files: a version's content is the manifest value itself.
- Version numbers are unbounded in the step system; the source's u64 would need 2^64 commits to wrap. `VersionNames` keeps the bound.
- Error messages: an error keeps its kind (plan, unsupported, I/O) only.
- Thrift message envelopes, sequence numbers, exceptions, string-list results and the socket; a reader starts at the struct. Allocation and stack depth are unbounded.
- ThriftCompat.NewTableRoundTrip: sizes beyond an i32 are excluded, because the writer's cast does not preserve them.
- Column types other than those with a Hive name are one constructor, `Other`.
- HiveTypes.SchemaFromColumns: letters are lower-cased as ASCII, as the source does; white space is Unicode's.
- Identity, region and credential resolution, SerDe tables, `detect_format`, `build_table_input`: settled by reading one branch.
- Configuration-declared tables outranking scanned ones when the catalog is built: the model starts from the merged tables.
- CatalogRefinement.StatementsRefine: for database names without a dot, which keeps keys unambiguous; `CatalogRefinement.KeyCollision` and `CatalogRefinement.OnlyRelatedNamesInterfere` say what happens with the others.
- The date is not formatted as text; the clock is a parameter. `CivilDate.Civil` is proved for negative day counts too, which the source never passes.
- The rewriting of intervals, which comes before the qualifier. Which characters past ASCII are letters or spaces is a parameter of the tokenizer. Words are lower-cased as ASCII, which decides membership in the ASCII keyword and table lists as the source's lower-casing does.
- QualifyText.TextIdempotent: for database names that are words; `QualifyText.CutsAsWrittenExactly` says that with other names the text need not mean the tokens that were written.
- Decoding of kit files as Latin-1 and splitting them into lines.
- Percent-encoding of object paths, URL parsing, and the order in which missing partitions are sent.
- Repairs.GlueTable.RepairTable: the answers of `GetTable`, of the scan and of each page of `GetPartitions` are given to it; following the pages is bounded by a limit on requests, because a service can lead on for ever.
- AlterTables.GlueAlter: how the fresh load turns a stored definition into a schema is not part of it.
- Repairs.GlueTable.BatchCreatePartition: what the service registers when it does not accept a whole batch is a parameter.
- Filters.ListGrantedNames: reading is bounded by a limit on requests, because a service can lead on for ever; what is returned does not depend on the limit.
- `effective_permissions` of Lake Formation: the same loop again.
- A listing that fails part-way: a scan then is an error and has no result.
