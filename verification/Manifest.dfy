/** The catalog document: what one version of the manifest holds. */
module Manifests {
  import opened Wrappers

  /** Columns as `(name, hive type)`, in order. */
  type HiveColumns = seq<(string, string)>

  datatype DatabaseEntry = DatabaseEntry(comment: Option<string>, location: Option<string>)

  datatype TableEntry = TableEntry(
    location: string,
    format: string,
    columns: HiveColumns,
    partitionColumns: HiveColumns,
    comment: Option<string>,
    columnComments: map<string, string>,
    properties: map<string, string>,
    storageOptions: map<string, string>)

  /** `tables` is keyed by `database.table`. */
  datatype Manifest = Manifest(
    version: nat,
    databases: map<string, DatabaseEntry>,
    tables: map<string, TableEntry>)

  /** What a catalog that was never written loads as. */
  const EMPTY_MANIFEST := Manifest(0, map[], map[])
}
