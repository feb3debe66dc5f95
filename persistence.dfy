/**
 * The two decisions of persistence that do not depend on the file system:
 * whether `save_database` writes at all (the throttle), and how
 * `load_database` reads a document back (the wrapped format `save_database`
 * writes, or the legacy format that is the table map itself). Also what
 * writing the indexes as JSON and reading them back does to their keys.
 */
module Persistence {
  import opened Values
  import opened Schemas
  import opened Indexes
  import opened Matcher

  /** What a call of `save_database` does: skip (and report success), write, or
      fail to write (and report failure). */
  datatype SaveOutcome = Skipped | Written | WriteFailed

  /** The save throttle: outside a transaction, a save less than `interval`
      seconds after the last successful write is skipped. `writeOk` says
      whether the write to disk would succeed. */
  function SaveDecision(now: int, lastSave: int, interval: int, inTransaction: bool, writeOk: bool): (o: SaveOutcome)
    ensures o == Skipped ==> !inTransaction && now < lastSave + interval
    ensures o == Written ==> writeOk
  {
    if now - lastSave < interval && !inTransaction then Skipped
    else if writeOk then Written
    else WriteFailed
  }

  /** `save_database` reports failure only when it tried to write and could not. */
  lemma SaveReportsOnlyWriteFailure(now: int, lastSave: int, interval: int, inTransaction: bool, writeOk: bool)
    ensures SaveDecision(now, lastSave, interval, inTransaction, writeOk) == WriteFailed <==>
      !writeOk && (inTransaction || now - lastSave >= interval)
  {
  }

  /** Inside a transaction the throttle is bypassed: every save writes. */
  lemma TransactionSavesAlwaysWrite(now: int, lastSave: int, interval: int, writeOk: bool)
    ensures SaveDecision(now, lastSave, interval, true, writeOk) != Skipped
  {
  }

  /** Outside a transaction, once a write happened at `t1`, a save at `t2` is
      skipped exactly while fewer than `interval` seconds have passed. */
  lemma ThrottleWindow(t1: int, t2: int, interval: int, writeOk: bool)
    ensures SaveDecision(t2, t1, interval, false, writeOk) == Skipped <==> t2 < t1 + interval
  {
  }

  // ---------------------------------------------------------------------------
  // Documents.

  /** A top-level entry of a database document. */
  datatype Entry =
    | TextEntry(text: string)
    | TablesEntry(tables: map<string, seq<Record>>)
    | SchemasEntry(schemas: map<string, Schema>)
    | IndexesEntry(indexes: map<string, TableIndexes>)
    | RecordsEntry(records: seq<Record>)

  /** A parsed JSON database file: a map from top-level keys to entries. */
  type Document = map<string, Entry>

  /** What `load_database` finds: no file, a file that fails to read or parse,
      or a parsed document. */
  datatype FileContent = NoFile | Unreadable | Parsed(doc: Document)

  /** The three maps the engine keeps. */
  datatype State = State(data: map<string, seq<Record>>, schemas: map<string, Schema>, indexes: map<string, TableIndexes>)

  const EmptyState := State(map[], map[], map[])

  /** The document `save_database` writes. */
  function Wrapped(s: State, stamp: string): (d: Document)
    ensures d.Keys == {"version", "created_at", "tables", "schemas", "indexes"}
    ensures d["tables"] == TablesEntry(s.data) && d["schemas"] == SchemasEntry(s.schemas) && d["indexes"] == IndexesEntry(s.indexes)
  {
    map["version" := TextEntry("1.0"), "created_at" := TextEntry(stamp),
        "tables" := TablesEntry(s.data), "schemas" := SchemasEntry(s.schemas), "indexes" := IndexesEntry(s.indexes)]
  }

  /** An older file: the table map itself, with nothing else. */
  function Legacy(data: map<string, seq<Record>>): Document
  {
    map t | t in data :: RecordsEntry(data[t])
  }

  /** `content.get(key, {})` for the schema map of a wrapped document. */
  function SchemasOf(doc: Document): Option<map<string, Schema>>
  {
    if "schemas" !in doc then Some(map[])
    else if doc["schemas"].SchemasEntry? then Some(doc["schemas"].schemas)
    else None
  }

  /** `content.get(key, {})` for the index map of a wrapped document. */
  function IndexesOf(doc: Document): Option<map<string, TableIndexes>>
  {
    if "indexes" !in doc then Some(map[])
    else if doc["indexes"].IndexesEntry? then Some(doc["indexes"].indexes)
    else None
  }

  /** `load_database`: no file or an unreadable one gives an empty database; a
      document with a "tables" key is read as the wrapped format, any other as
      the legacy table map. None where the source would install a value of
      the wrong shape (such as a list of records in place of the table map). */
  function Load(file: FileContent): (r: Option<State>)
    ensures file.Parsed? && r.Some? && "tables" !in file.doc ==> r.value.schemas == map[] && r.value.indexes == map[]
  {
    match file
    case NoFile => Some(EmptyState)
    case Unreadable => Some(EmptyState)
    case Parsed(doc) =>
      if "tables" in doc then
        if doc["tables"].TablesEntry? && SchemasOf(doc).Some? && IndexesOf(doc).Some? then
          Some(State(doc["tables"].tables, SchemasOf(doc).value, IndexesOf(doc).value))
        else None
      else if forall t :: t in doc ==> doc[t].RecordsEntry? then
        Some(State(map t | t in doc :: doc[t].records, map[], map[]))
      else None
  }

  /** Reading back what was saved gives the saved state. */
  lemma LoadWrapped(s: State, stamp: string)
    ensures Load(Parsed(Wrapped(s, stamp))) == Some(s)
  {
  }

  /** A legacy file loads its tables, with no schemas and no indexes, unless a
      table is named "tables". */
  lemma LoadLegacy(data: map<string, seq<Record>>)
    requires "tables" !in data
    ensures Load(Parsed(Legacy(data))) == Some(State(data, map[], map[]))
  {
    var doc := Legacy(data);
    assert (map t | t in doc :: doc[t].records) == data;
  }

  /** A legacy file with a table named "tables" is taken for the wrapped format,
      and its records for the table map. */
  lemma LegacyTableNamedTables(data: map<string, seq<Record>>)
    requires "tables" in data
    ensures Load(Parsed(Legacy(data))).None?
  {
  }

  // ---------------------------------------------------------------------------
  // Index keys through JSON.

  /** The text `json.dump` writes for a dict key: `null`, `true`, `false`, the
      decimal digits of an int, or the string itself. */
  function JsonKey(v: Value): string
  {
    match v
    case Null => "null"
    case Bool(b) => if b then "true" else "false"
    case Int(_) => PyStr(v)
    case Str(s) => s
  }

  /** One column index after `json.dump` and `json.load`: every key comes back
      as the string printed for it. Where two keys print alike (20 and "20")
      one of their lists survives; which one is left open. */
  ghost function ReloadIndex(ix: ColumnIndex): (r: ColumnIndex)
    ensures forall w :: w in r ==> w.Str?
    ensures forall v :: v in ix ==> Str(JsonKey(v)) in r
  {
    map w | w in ReloadedKeys(ix) :: var v :| v in ix && Str(JsonKey(v)) == w; ix[v]
  }

  /** The keys of a column index as `json.load` returns them. */
  ghost function ReloadedKeys(ix: ColumnIndex): set<Value>
  {
    set v | v in ix :: Str(JsonKey(v))
  }

  /** After a reload, a lookup by an int value finds nothing: a table with one
      record of age 20, indexed on `age`, answers `select({age: 20})` through
      the reloaded index with no record, while the scan finds the record. */
  lemma StaleIndexAfterReload()
    ensures
      var rs: seq<Record> := [map["age" := Int(20)]];
      var reloaded := ReloadIndex(IndexFor(rs, "age"));
      && Pick(rs, PositionsOf(IndexFor(rs, "age"), Int(20))) == rs
      && Pick(rs, PositionsOf(reloaded, Int(20))) == []
      && Kept(rs, [("age", Literal(Int(20)))], true) == rs
  {
    var rs: seq<Record> := [map["age" := Int(20)]];
    assert rs[..0] == [];
    IndexPathIsScan(rs, "age", Int(20));
    assert Int(20) !in ReloadIndex(IndexFor(rs, "age"));
  }

  /** The corrected load: every table's indexes rebuilt from its loaded
      records, so that lookups by value agree with a scan whatever the file
      held under the index keys. */
  function Reindex(s: State): (r: State)
    ensures r.data == s.data && r.schemas == s.schemas && r.indexes.Keys == s.indexes.Keys
    ensures forall t :: t in r.indexes ==> r.indexes[t].Keys == s.indexes[t].Keys
    ensures forall t :: t in r.indexes && t in r.data ==> Fresh(r.data[t], r.indexes[t])
  {
    State(s.data, s.schemas, map t | t in s.indexes :: Rebuild(s.indexes[t], if t in s.data then s.data[t] else []))
  }

  /** The indexes as `json.load` returns them. */
  ghost function ReloadIndexes(indexes: map<string, TableIndexes>): map<string, TableIndexes>
  {
    map t | t in indexes :: map c | c in indexes[t] :: ReloadIndex(indexes[t][c])
  }

  /** Reindexing after a reload gives what reindexing the saved state gives:
      the stringified keys no longer matter. */
  lemma ReindexAfterReload(s: State)
    ensures Reindex(State(s.data, s.schemas, ReloadIndexes(s.indexes))) == Reindex(s)
  {
    var a := Reindex(State(s.data, s.schemas, ReloadIndexes(s.indexes)));
    var b := Reindex(s);
    forall t | t in a.indexes ensures a.indexes[t] == b.indexes[t] {
      assert a.indexes[t].Keys == b.indexes[t].Keys;
    }
  }
}
