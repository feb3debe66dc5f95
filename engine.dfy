/**
 * The storage and query engine (the `ADB` class): three maps changed in place
 * (tables to record lists, tables to column indexes, tables to schemas), the
 * transaction flag and snapshot, and the save throttle.
 */
module Engine {
  import opened Values
  import opened Matcher
  import opened Schemas
  import opened Indexes
  import opened Aggregation
  import opened Persistence
  import SqlLike

  /** What the environment supplies to a call that may save or stamp records:
      the clock (`time.time()`, in whole seconds), the ISO time stamp
      `datetime.now().isoformat()` returns, and whether writing the database
      file succeeds. */
  datatype Io = Io(now: int, stamp: string, writeOk: bool)

  /** `_save_interval`: at most one throttled write per second. */
  const SaveInterval := 1

  /** The record `insert` stores: a copy of the caller's record with
      `_created_at` and `_id` set. */
  function Stamped(rec: Record, stamp: string, id: nat): (r: Record)
    ensures r.Keys == rec.Keys + {"_created_at", "_id"}
    ensures r["_id"] == Int(id) && r["_created_at"] == Str(stamp)
    ensures forall f :: f in rec && f != "_id" && f != "_created_at" ==> r[f] == rec[f]
  {
    rec["_created_at" := Str(stamp)]["_id" := Int(id)]
  }

  /** `record.update(new_values)` followed by setting `_updated_at`. */
  function Updated(rec: Record, newValues: Record, stamp: string): (r: Record)
    ensures r.Keys == rec.Keys + newValues.Keys + {"_updated_at"}
    ensures forall f :: f in newValues && f != "_updated_at" ==> r[f] == newValues[f]
    ensures forall f :: f in rec && f !in newValues && f != "_updated_at" ==> r[f] == rec[f]
    ensures r["_updated_at"] == Str(stamp)
  {
    (rec + newValues)["_updated_at" := Str(stamp)]
  }

  // ---------------------------------------------------------------------------
  // The update loop as a function of the table before the call.

  /** Where the update loop stands: the table's records, how many were updated,
      the error that stopped it (if one did), and how many records it had
      finished when it stopped (all of them if it did not). */
  datatype Progress = Progress(records: seq<Record>, count: nat, failure: Option<Error>, processed: nat)

  /** The update loop over the first `n` records of `rs`: each matching record
      is validated with the new values merged in and then updated in place; a
      matcher error or a validation failure stops the loop and leaves the
      earlier updates in place. */
  function UpdateRun(rs: seq<Record>, n: nat, cond: Condition, newValues: Record,
                     schemas: map<string, Schema>, table: string, stamp: string): (p: Progress)
    requires n <= |rs|
    ensures |p.records| == |rs| && p.processed <= n
    ensures p.failure.None? ==> p.processed == n
    decreases n
  {
    if n == 0 then Progress(rs, 0, None, 0)
    else
      var p := UpdateRun(rs, n - 1, cond, newValues, schemas, table, stamp);
      if p.failure.Some? then p
      else match Match(rs[n - 1], cond)
        case Err(e) => Progress(p.records, p.count, Some(e), p.processed)
        case Ok(hit) =>
          if !hit then Progress(p.records, p.count, None, n)
          else if !ValidateRecord(schemas, table, rs[n - 1] + newValues) then
            Progress(p.records, p.count, Some(Validation), p.processed)
          else Progress(p.records[n - 1 := Updated(rs[n - 1], newValues, stamp)], p.count + 1, None, n)
  }

  /** Why the update loop stops at a record: its match raises, or it matches
      and the record with the new values merged in fails validation. */
  ghost predicate StopsAt(rec: Record, cond: Condition, newValues: Record, schemas: map<string, Schema>, table: string, e: Error)
  {
    || (e == TypeMismatch && Match(rec, cond).Err?)
    || (e == Validation && Satisfies(rec, cond) && !SchemaAccepts(schemas, table, rec + newValues))
  }

  /** The first `m` records of `recs` are those of `rs`, updated where they
      match, and the rest are those of `rs` unchanged. */
  ghost predicate UpdatedThrough(rs: seq<Record>, recs: seq<Record>, m: nat, cond: Condition, newValues: Record, stamp: string)
  {
    && |recs| == |rs|
    && (forall k :: 0 <= k < m && k < |rs| ==>
          recs[k] == if Satisfies(rs[k], cond) then Updated(rs[k], newValues, stamp) else rs[k])
    && (forall k :: m <= k < |rs| ==> recs[k] == rs[k])
  }

  /** Finishing one more record: a matching one is updated in place, any other left as it was. */
  lemma UpdatedThroughStep(rs: seq<Record>, recs: seq<Record>, m: nat, cond: Condition, newValues: Record, stamp: string)
    requires m < |rs| && UpdatedThrough(rs, recs, m, cond, newValues, stamp)
    ensures Satisfies(rs[m], cond) ==>
      UpdatedThrough(rs, recs[m := Updated(rs[m], newValues, stamp)], m + 1, cond, newValues, stamp)
    ensures !Satisfies(rs[m], cond) ==> UpdatedThrough(rs, recs, m + 1, cond, newValues, stamp)
  {
    if Satisfies(rs[m], cond) {
      var recs' := recs[m := Updated(rs[m], newValues, stamp)];
      forall k | 0 <= k < m + 1 && k < |rs|
        ensures recs'[k] == if Satisfies(rs[k], cond) then Updated(rs[k], newValues, stamp) else rs[k]
      {
        if k < m { assert recs'[k] == recs[k]; }
      }
    }
  }

  /** The update loop updates exactly the matching records among those it
      finished and leaves every other record as it was. */
  lemma UpdateRunRecords(rs: seq<Record>, n: nat, cond: Condition, newValues: Record,
                         schemas: map<string, Schema>, table: string, stamp: string)
    requires n <= |rs|
    ensures var p := UpdateRun(rs, n, cond, newValues, schemas, table, stamp);
      && (forall k :: 0 <= k < p.processed ==>
            p.records[k] == if Satisfies(rs[k], cond) then Updated(rs[k], newValues, stamp) else rs[k])
      && (forall k :: p.processed <= k < |rs| ==> p.records[k] == rs[k])
  {
    var p := UpdateRun(rs, n, cond, newValues, schemas, table, stamp);
    UpdateRunThrough(rs, n, cond, newValues, schemas, table, stamp);
    assert p.processed <= n <= |rs|;
  }

  lemma {:induction false} UpdateRunThrough(rs: seq<Record>, n: nat, cond: Condition, newValues: Record,
                                            schemas: map<string, Schema>, table: string, stamp: string)
    requires n <= |rs|
    ensures var p := UpdateRun(rs, n, cond, newValues, schemas, table, stamp);
      UpdatedThrough(rs, p.records, p.processed, cond, newValues, stamp)
    decreases n
  {
    if n > 0 {
      UpdateRunThrough(rs, n - 1, cond, newValues, schemas, table, stamp);
      var p := UpdateRun(rs, n - 1, cond, newValues, schemas, table, stamp);
      var p' := UpdateRun(rs, n, cond, newValues, schemas, table, stamp);
      if p.failure.None? {
        var rec := rs[n - 1];
        UpdatedThroughStep(rs, p.records, n - 1, cond, newValues, stamp);
        match Match(rec, cond)
        case Err(e) =>
          assert p' == Progress(p.records, p.count, Some(e), p.processed);
        case Ok(hit) =>
          assert hit == Satisfies(rec, cond);
          if !hit {
            assert p' == Progress(p.records, p.count, None, n);
          } else if ValidateRecord(schemas, table, rec + newValues) {
            assert p' == Progress(p.records[n - 1 := Updated(rec, newValues, stamp)], p.count + 1, None, n);
          } else {
            assert p' == Progress(p.records, p.count, Some(Validation), p.processed);
          }
      } else {
        assert p' == p;
      }
    }
  }

  /** The update loop counts the matching records among those it finished; it
      stops early only at a record whose match raised or whose merged record
      failed validation. */
  lemma {:induction false} UpdateRunCount(rs: seq<Record>, n: nat, cond: Condition, newValues: Record,
                                          schemas: map<string, Schema>, table: string, stamp: string)
    requires n <= |rs|
    ensures var p := UpdateRun(rs, n, cond, newValues, schemas, table, stamp);
      && p.count == |Kept(rs[..p.processed], cond, true)|
      && (p.failure.None? ==> p.processed == n)
      && (p.failure.Some? ==> p.processed < n && StopsAt(rs[p.processed], cond, newValues, schemas, table, p.failure.value))
    decreases n
  {
    if n > 0 {
      UpdateRunCount(rs, n - 1, cond, newValues, schemas, table, stamp);
      var p := UpdateRun(rs, n - 1, cond, newValues, schemas, table, stamp);
      if p.failure.None? {
        assert rs[..n][..n - 1] == rs[..n - 1];
        var rec := rs[n - 1];
        match Match(rec, cond)
        case Err(e) =>
        case Ok(hit) =>
          if hit && ValidateRecord(schemas, table, rec + newValues) {
            assert Kept(rs[..n], cond, true) == Kept(rs[..n - 1], cond, true) + [rec];
          } else if !hit {
            assert Kept(rs[..n], cond, true) == Kept(rs[..n - 1], cond, true);
          }
      }
    }
  }

  /** The update loop updates exactly the matching records among those it
      finished, leaves every other record as it was, and counts the updates; it
      stops early only at a record whose match raised or whose merged record
      failed validation. */
  lemma UpdateRunMeaning(rs: seq<Record>, n: nat, cond: Condition, newValues: Record,
                         schemas: map<string, Schema>, table: string, stamp: string)
    requires n <= |rs|
    ensures var p := UpdateRun(rs, n, cond, newValues, schemas, table, stamp);
      && (forall k :: 0 <= k < p.processed ==>
            p.records[k] == if Satisfies(rs[k], cond) then Updated(rs[k], newValues, stamp) else rs[k])
      && (forall k :: p.processed <= k < |rs| ==> p.records[k] == rs[k])
      && p.count == |Kept(rs[..p.processed], cond, true)|
      && (p.failure.None? ==> p.processed == n)
      && (p.failure.Some? ==> p.processed < n && StopsAt(rs[p.processed], cond, newValues, schemas, table, p.failure.value))
  {
    UpdateRunRecords(rs, n, cond, newValues, schemas, table, stamp);
    UpdateRunCount(rs, n, cond, newValues, schemas, table, stamp);
  }

  /** Once the update loop has stopped, further records change nothing. */
  lemma {:induction false} UpdateRunStays(rs: seq<Record>, n: nat, m: nat, cond: Condition, newValues: Record,
                                          schemas: map<string, Schema>, table: string, stamp: string)
    requires n <= m <= |rs|
    requires UpdateRun(rs, n, cond, newValues, schemas, table, stamp).failure.Some?
    ensures UpdateRun(rs, m, cond, newValues, schemas, table, stamp) == UpdateRun(rs, n, cond, newValues, schemas, table, stamp)
    decreases m
  {
    if m > n {
      UpdateRunStays(rs, n, m - 1, cond, newValues, schemas, table, stamp);
    }
  }

  /** When the condition matches nothing, no record is touched. */
  lemma NoneKept(rs: seq<Record>, cond: Condition)
    requires |Kept(rs, cond, true)| == 0
    ensures forall k :: 0 <= k < |rs| ==> !Satisfies(rs[k], cond)
  {
    forall k | 0 <= k < |rs| ensures !Satisfies(rs[k], cond) {
      KeptMembers(rs, cond, true, rs[k]);
    }
  }

  /** A table's indexes after the corrected rebuild. */
  function RebuildTable(indexes: map<string, TableIndexes>, table: string, rs: seq<Record>): (r: map<string, TableIndexes>)
    ensures r.Keys == indexes.Keys
    ensures table in r ==> Fresh(rs, r[table])
  {
    if table in indexes then indexes[table := Rebuild(indexes[table], rs)] else indexes
  }

  /** The loop of `update` over the records, stopping at the first error. */
  /** One more record of the update loop, when the loop has not stopped. */
  lemma UpdateRunNext(rs: seq<Record>, i: nat, cond: Condition, newValues: Record,
                      schemas: map<string, Schema>, table: string, stamp: string)
    requires i < |rs|
    ensures var p := UpdateRun(rs, i, cond, newValues, schemas, table, stamp);
      p.failure.None? ==>
        UpdateRun(rs, i + 1, cond, newValues, schemas, table, stamp) ==
          match Match(rs[i], cond)
          case Err(e) => Progress(p.records, p.count, Some(e), i)
          case Ok(hit) =>
            if !hit then Progress(p.records, p.count, None, i + 1)
            else if !ValidateRecord(schemas, table, rs[i] + newValues) then Progress(p.records, p.count, Some(Validation), i)
            else Progress(p.records[i := Updated(rs[i], newValues, stamp)], p.count + 1, None, i + 1)
  {
  }

  method UpdateLoop(rs: seq<Record>, cond: Condition, newValues: Record,
                    schemas: map<string, Schema>, table: string, stamp: string) returns (p: Progress)
    ensures p == UpdateRun(rs, |rs|, cond, newValues, schemas, table, stamp)
  {
    var records := rs;
    var count := 0;
    var i := 0;
    while i < |rs|
      invariant 0 <= i <= |rs|
      invariant UpdateRun(rs, i, cond, newValues, schemas, table, stamp) == Progress(records, count, None, i)
    {
      UpdateRunNext(rs, i, cond, newValues, schemas, table, stamp);
      var m := Match(rs[i], cond);
      if m.Err? {
        UpdateRunStays(rs, i + 1, |rs|, cond, newValues, schemas, table, stamp);
        return Progress(records, count, Some(m.error), i);
      }
      if m.value {
        if !ValidateRecord(schemas, table, rs[i] + newValues) {
          UpdateRunStays(rs, i + 1, |rs|, cond, newValues, schemas, table, stamp);
          return Progress(records, count, Some(Validation), i);
        }
        records := records[i := Updated(rs[i], newValues, stamp)];
        count := count + 1;
      }
      i := i + 1;
    }
    p := Progress(records, count, None, |rs|);
  }

  /** When no record raises and every matching record stays valid, the update
      changes exactly the matching records and returns how many there were. */
  lemma UpdateAllValid(rs: seq<Record>, cond: Condition, newValues: Record,
                       schemas: map<string, Schema>, table: string, stamp: string)
    requires forall k :: 0 <= k < |rs| ==> Comparable(rs[k], cond)
    requires forall k :: 0 <= k < |rs| && Satisfies(rs[k], cond) ==> SchemaAccepts(schemas, table, rs[k] + newValues)
    ensures var p := UpdateRun(rs, |rs|, cond, newValues, schemas, table, stamp);
      && p.failure.None?
      && (forall k :: 0 <= k < |rs| ==>
            p.records[k] == if Satisfies(rs[k], cond) then Updated(rs[k], newValues, stamp) else rs[k])
      && p.count == |Kept(rs, cond, true)|
  {
    UpdateRunMeaning(rs, |rs|, cond, newValues, schemas, table, stamp);
    assert rs[..|rs|] == rs;
  }

  // ---------------------------------------------------------------------------
  // Column edits of `alter_table`.

  /** `if column not in record: record[column] = default`. */
  function WithColumn(rec: Record, column: string, default: Value): (r: Record)
    ensures column in r && r.Keys == rec.Keys + {column}
    ensures r[column] == if column in rec then rec[column] else default
    ensures forall f :: f in rec ==> r[f] == rec[f]
  {
    if column in rec then rec else rec[column := default]
  }

  /** `if column in record: del record[column]`. */
  function WithoutColumn(rec: Record, column: string): (r: Record)
    ensures column !in r && r.Keys == rec.Keys - {column}
    ensures forall f :: f in r ==> r[f] == rec[f]
  {
    rec - {column}
  }

  /** The edits `alter_table` accepts; anything else only saves. */
  datatype AlterAction =
    | AddColumn(column: string, definition: Constraint, default: Value)
    | DropColumn(column: string)
    | OtherAction

  // ---------------------------------------------------------------------------
  // Query plans.

  datatype ScanType = FullScan | IndexScan

  /** What `explain_query` reports. */
  datatype Plan = Plan(table: string, scanType: ScanType, estimatedRows: nat, indexesUsed: seq<string>, condition: Option<Condition>)

  /** Some clause of the condition is on field `k`. */
  predicate KeyIn(cond: Condition, k: string)
    decreases |cond|
  {
    cond != [] && (cond[|cond| - 1].0 == k || KeyIn(cond[..|cond| - 1], k))
  }

  /** The condition's keys that have an index, in condition order. */
  function IndexedKeys(cond: Condition, tix: TableIndexes): (r: seq<string>)
    ensures forall k :: k in r <==> k in tix && KeyIn(cond, k)
    decreases |cond|
  {
    if cond == [] then []
    else
      var last := cond[|cond| - 1];
      IndexedKeys(cond[..|cond| - 1], tix) + (if last.0 in tix then [last.0] else [])
  }

  /** The row estimate after the key loop: the number of positions listed for
      the last indexed literal key, or `rows` if there is none. */
  /** A condition entry that is a literal on an indexed column. */
  predicate IndexedLiteral(e: (string, Clause), tix: TableIndexes)
  {
    e.0 in tix && e.1.Literal?
  }

  /** Entry `k` is the last indexed literal of the condition. */
  predicate LastIndexedLiteral(cond: Condition, tix: TableIndexes, k: int)
  {
    0 <= k < |cond| && IndexedLiteral(cond[k], tix) &&
    forall j :: k < j < |cond| ==> !IndexedLiteral(cond[j], tix)
  }

  function Estimate(cond: Condition, tix: TableIndexes, rows: nat): nat
    decreases |cond|
  {
    if cond == [] then rows
    else
      var last := cond[|cond| - 1];
      if last.0 in tix && last.1.Literal? then |PositionsOf(tix[last.0], last.1.v)|
      else Estimate(cond[..|cond| - 1], tix, rows)
  }

  /** The estimate is the position count of the last indexed literal entry of
      the condition, or the table size when no entry is one. */
  lemma {:induction false} EstimateMeaning(cond: Condition, tix: TableIndexes, rows: nat)
    ensures (forall k :: 0 <= k < |cond| ==> !IndexedLiteral(cond[k], tix)) ==> Estimate(cond, tix, rows) == rows
    ensures forall k :: LastIndexedLiteral(cond, tix, k) ==>
      Estimate(cond, tix, rows) == |PositionsOf(tix[cond[k].0], cond[k].1.v)|
    decreases |cond|
  {
    if cond != [] {
      var pre := cond[..|cond| - 1];
      var last := cond[|cond| - 1];
      EstimateMeaning(pre, tix, rows);
      if IndexedLiteral(last, tix) {
        assert Estimate(cond, tix, rows) == |PositionsOf(tix[last.0], last.1.v)|;
        forall k | LastIndexedLiteral(cond, tix, k)
          ensures Estimate(cond, tix, rows) == |PositionsOf(tix[cond[k].0], cond[k].1.v)|
        {
          assert k == |cond| - 1;
        }
      } else {
        assert Estimate(cond, tix, rows) == Estimate(pre, tix, rows);
        forall k | LastIndexedLiteral(cond, tix, k)
          ensures Estimate(cond, tix, rows) == |PositionsOf(tix[cond[k].0], cond[k].1.v)|
        {
          assert k < |pre| && pre[k] == cond[k];
          forall j | k < j < |pre| ensures !IndexedLiteral(pre[j], tix) {
            assert pre[j] == cond[j];
          }
          assert LastIndexedLiteral(pre, tix, k);
        }
        if forall k :: 0 <= k < |cond| ==> !IndexedLiteral(cond[k], tix) {
          forall k | 0 <= k < |pre| ensures !IndexedLiteral(pre[k], tix) {
            assert pre[k] == cond[k];
          }
        }
      }
    }
  }

  /** One more key of the `explain_query` loop. */
  lemma ExplainStep(c: Condition, i: nat, tix: TableIndexes, rows: nat)
    requires i < |c|
    ensures IndexedKeys(c[..i + 1], tix) == IndexedKeys(c[..i], tix) + (if c[i].0 in tix then [c[i].0] else [])
    ensures Estimate(c[..i + 1], tix, rows) ==
      if c[i].0 in tix && c[i].1.Literal? then |PositionsOf(tix[c[i].0], c[i].1.v)| else Estimate(c[..i], tix, rows)
  {
    assert c[..i + 1][..i] == c[..i];
  }

  lemma {:induction false} PickAllInRange(rs: seq<Record>, ps: seq<nat>)
    requires forall k :: 0 <= k < |ps| ==> ps[k] < |rs|
    ensures |Pick(rs, ps)| == |ps|
    decreases |ps|
  {
    if ps != [] {
      PickAllInRange(rs, ps[..|ps| - 1]);
      PickAppend(rs, ps[..|ps| - 1], ps[|ps| - 1]);
      assert ps[..|ps| - 1] + [ps[|ps| - 1]] == ps;
    }
  }

  /** On fresh indexes, the estimate for a literal on an indexed column is
      exactly the number of records a scan matches. */
  lemma EstimateIsExact(rs: seq<Record>, tix: TableIndexes, col: string, v: Value)
    requires Fresh(rs, tix) && col in tix
    ensures Estimate([(col, Literal(v))], tix, |rs|) == |Kept(rs, [(col, Literal(v))], true)|
  {
    assert tix[col] == IndexFor(rs, col);
    IndexForSound(rs, col, v);
    PickAllInRange(rs, PositionsOf(tix[col], v));
    FreshIndexPathIsScan(rs, tix, col, v);
  }

  // ---------------------------------------------------------------------------
  // Table statistics.

  /** `type(value).__name__`. */
  function TypeName(v: Value): string
  {
    match v
    case Null => "NoneType"
    case Bool(_) => "bool"
    case Int(_) => "int"
    case Str(_) => "str"
  }

  /** The per-column statistics `analyze_table` accumulates: the type name of the
      first value seen, the count of None values, and the set of `str(value)`
      of the other values. */
  datatype ColumnStats = ColumnStats(types: map<string, string>, nulls: map<string, nat>, uniques: map<string, set<string>>)

  /** One record's pass of the inner loop. */
  function AddRecord(st: ColumnStats, rec: Record): (r: ColumnStats)
    requires st.nulls.Keys == st.types.Keys && st.uniques.Keys == st.types.Keys
    ensures r.types.Keys == st.types.Keys + rec.Keys
    ensures r.nulls.Keys == r.types.Keys && r.uniques.Keys == r.types.Keys
  {
    var cols := st.types.Keys + rec.Keys;
    ColumnStats(
      map c | c in cols :: if c in st.types then st.types[c] else TypeName(rec[c]),
      map c | c in cols :: (if c in st.nulls then st.nulls[c] else 0) + (if c in rec && rec[c].Null? then 1 else 0),
      map c | c in cols :: (if c in st.uniques then st.uniques[c] else {}) + (if c in rec && !rec[c].Null? then {PyStr(rec[c])} else {}))
  }

  /** What one record's pass does to column `c`. */
  lemma AddRecordColumn(st: ColumnStats, rec: Record, c: string)
    requires st.nulls.Keys == st.types.Keys && st.uniques.Keys == st.types.Keys
    requires c in st.types || c in rec
    ensures var r := AddRecord(st, rec);
      && c in r.types
      && r.types[c] == (if c in st.types then st.types[c] else TypeName(rec[c]))
      && r.nulls[c] == (if c in st.types then st.nulls[c] else 0) + (if c in rec && rec[c].Null? then 1 else 0)
      && r.uniques[c] == (if c in st.types then st.uniques[c] else {}) + (if c in rec && !rec[c].Null? then {PyStr(rec[c])} else {})
  {
  }

  /** The statistics after the records `rs`. */
  function Stats(rs: seq<Record>): (r: ColumnStats)
    ensures r.nulls.Keys == r.types.Keys && r.uniques.Keys == r.types.Keys
    decreases |rs|
  {
    if rs == [] then ColumnStats(map[], map[], map[]) else AddRecord(Stats(rs[..|rs| - 1]), rs[|rs| - 1])
  }

  /** How many of the records hold column `c`. */
  function Holding(rs: seq<Record>, c: string): nat
    decreases |rs|
  {
    if rs == [] then 0 else Holding(rs[..|rs| - 1], c) + (if c in rs[|rs| - 1] then 1 else 0)
  }

  /** A column is reported exactly when some record holds it. */
  lemma {:induction false} StatsColumns(rs: seq<Record>, c: string)
    ensures c in Stats(rs).types <==> exists k :: 0 <= k < |rs| && c in rs[k]
    decreases |rs|
  {
    if rs != [] {
      var pre := rs[..|rs| - 1];
      StatsColumns(pre, c);
      if exists k :: 0 <= k < |rs| && c in rs[k] {
        var k :| 0 <= k < |rs| && c in rs[k];
        if k < |pre| { assert c in pre[k]; }
      }
      if exists k :: 0 <= k < |pre| && c in pre[k] {
        var k :| 0 <= k < |pre| && c in pre[k];
        assert c in rs[k];
      }
    }
  }

  /** The type name of the first value the records hold in column `c`. */
  function FirstType(rs: seq<Record>, c: string): Option<string>
    decreases |rs|
  {
    if rs == [] then None
    else
      match FirstType(rs[..|rs| - 1], c)
      case Some(t) => Some(t)
      case None => if c in rs[|rs| - 1] then Some(TypeName(rs[|rs| - 1][c])) else None
  }

  /** How many records hold None in column `c`. */
  function NullCount(rs: seq<Record>, c: string): nat
    decreases |rs|
  {
    if rs == [] then 0
    else NullCount(rs[..|rs| - 1], c) + (if c in rs[|rs| - 1] && rs[|rs| - 1][c].Null? then 1 else 0)
  }

  /** The printed forms of the values other than None in column `c`. */
  function Printed(rs: seq<Record>, c: string): set<string>
    decreases |rs|
  {
    if rs == [] then {}
    else Printed(rs[..|rs| - 1], c) + (if c in rs[|rs| - 1] && !rs[|rs| - 1][c].Null? then {PyStr(rs[|rs| - 1][c])} else {})
  }

  /** The accumulated maps hold, column by column, the per-column summaries. */
  lemma {:induction false} StatsAt(rs: seq<Record>, c: string)
    ensures c in Stats(rs).types <==> FirstType(rs, c).Some?
    ensures c in Stats(rs).types ==>
      && Stats(rs).types[c] == FirstType(rs, c).value
      && Stats(rs).nulls[c] == NullCount(rs, c)
      && Stats(rs).uniques[c] == Printed(rs, c)
    decreases |rs|
  {
    if rs != [] {
      var pre := rs[..|rs| - 1];
      StatsAt(pre, c);
      assert Stats(rs) == AddRecord(Stats(pre), rs[|rs| - 1]);
      if c in Stats(pre).types || c in rs[|rs| - 1] {
        AddRecordColumn(Stats(pre), rs[|rs| - 1], c);
        if c !in Stats(pre).types {
          NothingHeld(pre, c);
        }
      } else {
        assert NullCount(pre, c) == 0 && Printed(pre, c) == {} by {
          NothingHeld(pre, c);
        }
      }
    }
  }

  /** The outer loop of `analyze_table`, one record at a time. */
  method CollectStats(rs: seq<Record>) returns (st: ColumnStats)
    ensures st.nulls.Keys == st.types.Keys && st.uniques.Keys == st.types.Keys
    ensures forall c :: c in st.types <==> FirstType(rs, c).Some?
    ensures forall c :: c in st.types ==>
      st.types[c] == FirstType(rs, c).value && st.nulls[c] == NullCount(rs, c) && st.uniques[c] == Printed(rs, c)
  {
    st := ColumnStats(map[], map[], map[]);
    var i := 0;
    while i < |rs|
      invariant 0 <= i <= |rs|
      invariant st == Stats(rs[..i])
    {
      assert rs[..i + 1][..i] == rs[..i];
      st := AddRecord(st, rs[i]);
      i := i + 1;
    }
    assert rs[..|rs|] == rs;
    forall c
      ensures c in st.types <==> FirstType(rs, c).Some?
      ensures c in st.types ==> st.types[c] == FirstType(rs, c).value && st.nulls[c] == NullCount(rs, c) && st.uniques[c] == Printed(rs, c)
    {
      StatsAt(rs, c);
    }
  }

  /** A column nobody holds has no type, no None and no printed value. */
  lemma {:induction false} NothingHeld(rs: seq<Record>, c: string)
    requires FirstType(rs, c).None?
    ensures NullCount(rs, c) == 0 && Printed(rs, c) == {}
    ensures forall k :: 0 <= k < |rs| ==> c !in rs[k]
    decreases |rs|
  {
    if rs != [] {
      var pre := rs[..|rs| - 1];
      NothingHeld(pre, c);
      assert forall k :: 0 <= k < |pre| ==> rs[k] == pre[k];
    }
  }

  /** The record at `k` is the first of `rs` to hold column `c`. */
  predicate FirstHolder(rs: seq<Record>, c: string, k: int)
  {
    0 <= k < |rs| && c in rs[k] && forall j :: 0 <= j < k ==> c !in rs[j]
  }

  /** A column's reported type is that of its first holder. */
  lemma {:induction false} FirstTypeMeaning(rs: seq<Record>, c: string)
    requires FirstType(rs, c).Some?
    ensures exists k :: FirstHolder(rs, c, k) && FirstType(rs, c).value == TypeName(rs[k][c])
    decreases |rs|
  {
    var pre := rs[..|rs| - 1];
    if FirstType(pre, c).Some? {
      FirstTypeMeaning(pre, c);
      var k :| FirstHolder(pre, c, k) && FirstType(pre, c).value == TypeName(pre[k][c]);
      assert FirstHolder(rs, c, k) by {
        assert forall j :: 0 <= j < k ==> rs[j] == pre[j];
      }
    } else {
      NothingHeld(pre, c);
      assert FirstHolder(rs, c, |pre|) by {
        assert forall j :: 0 <= j < |pre| ==> rs[j] == pre[j];
      }
    }
  }

  /** A column's None count and its number of distinct other values never
      exceed the number of records holding it. */
  lemma {:induction false} CountsBound(rs: seq<Record>, c: string)
    ensures NullCount(rs, c) + |Printed(rs, c)| <= Holding(rs, c)
    decreases |rs|
  {
    if rs != [] {
      CountsBound(rs[..|rs| - 1], c);
    }
  }

  /** Record `k` holds a value other than None in column `c` that prints as `s`. */
  predicate PrintsAs(rs: seq<Record>, c: string, k: int, s: string)
  {
    0 <= k < |rs| && c in rs[k] && !rs[k][c].Null? && PyStr(rs[k][c]) == s
  }

  /** The distinct values of a column are the printed forms of its values other than None. */
  lemma {:induction false} PrintedMeaning(rs: seq<Record>, c: string, s: string)
    ensures s in Printed(rs, c) <==> exists k :: PrintsAs(rs, c, k, s)
    decreases |rs|
  {
    if rs != [] {
      var pre := rs[..|rs| - 1];
      PrintedMeaning(pre, c, s);
      if s in Printed(rs, c) {
        if s in Printed(pre, c) {
          var k :| PrintsAs(pre, c, k, s);
          assert PrintsAs(rs, c, k, s);
        } else {
          assert PrintsAs(rs, c, |pre|, s);
        }
      }
      if exists k :: PrintsAs(rs, c, k, s) {
        var k :| PrintsAs(rs, c, k, s);
        if k < |pre| {
          assert PrintsAs(pre, c, k, s);
        }
      }
    }
  }

  /** What `analyze_table` returns: `{}` for a missing table, `{record_count: 0}`
      for an empty one, otherwise the record count and per-column statistics
      (the `columns` map is the key set of `dataTypes`). */
  datatype Analysis =
    | NoTable
    | EmptyTable
    | Analysis(recordCount: nat, dataTypes: map<string, string>, nullCounts: map<string, nat>, uniqueCounts: map<string, nat>)

  // ---------------------------------------------------------------------------
  // Transactions and bulk import.

  /** An engine call made inside a transaction body; `Raise` is caller code
      raising an exception. */
  datatype Op =
    | InsertOp(table: string, rec: Record)
    | UpdateOp(table: string, cond: Condition, newValues: Record)
    | DeleteOp(table: string, cond: Condition)
    | CreateIndexOp(table: string, column: string)
    | BeginOp
    | Raise

  datatype ImportMode = InsertMode | ReplaceMode | UpdateMode | OtherMode

  /** What `import_data` returns: `{error: ..., imported: 0}` for a missing
      table, otherwise the tallies and whether the transaction could not start
      (`transaction_error`). */
  datatype ImportReport = TableMissing | Report(imported: nat, skipped: nat, errors: nat, transactionError: bool)

  /** What `execute_sql_like` returns. */
  datatype SqlAnswer = RowCount(n: nat) | TableNames(names: set<string>)

  // ---------------------------------------------------------------------------

  class Database {
    var data: map<string, seq<Record>>
    var indexes: map<string, TableIndexes>
    var schemas: map<string, Schema>
    var transactionActive: bool
    var transactionBackup: Option<map<string, seq<Record>>>
    var lastSaveTime: int
    /** The database file as last written. */
    var file: FileContent
    /** `database.max_records_per_table` from the configuration. */
    const maxRecords: nat

    /** A snapshot is held exactly while a transaction is active. */
    ghost predicate Valid()
      reads this
    {
      transactionActive <==> transactionBackup.Some?
    }

    /** The table's indexes, if it has any, are what `create_index` would build now. */
    ghost predicate TableFresh(table: string)
      reads this
    {
      table in data && table in indexes ==> Fresh(data[table], indexes[table])
    }

    twostate predicate SameTransaction()
      reads this
    {
      transactionActive == old(transactionActive) && transactionBackup == old(transactionBackup)
    }

    twostate predicate NotSaved()
      reads this
    {
      file == old(file) && lastSaveTime == old(lastSaveTime)
    }

    /** The effect of one `save_database` call made with `inTransaction` as the
        transaction flag: either the current maps are written with the time
        stamp and the clock recorded, or the file and the clock stay. */
    twostate predicate SavedState(io: Io, inTransaction: bool)
      reads this
    {
      if SaveDecision(io.now, old(lastSaveTime), SaveInterval, inTransaction, io.writeOk) == Written then
        file == Parsed(Wrapped(State(data, schemas, indexes), io.stamp)) && lastSaveTime == io.now
      else
        file == old(file) && lastSaveTime == old(lastSaveTime)
    }

    /** As SavedState, and `ok` is what `save_database` returned. */
    twostate predicate Saved(io: Io, ok: bool)
      reads this
    {
      SavedState(io, transactionActive) &&
      ok == (SaveDecision(io.now, old(lastSaveTime), SaveInterval, transactionActive, io.writeOk) != WriteFailed)
    }

    /** `__init__` followed by `load_database`. */
    constructor (maxRecords: nat, file: FileContent)
      requires Load(file).Some?
      ensures Valid() && !transactionActive
      ensures State(data, schemas, indexes) == Load(file).value
      ensures this.file == file && lastSaveTime == 0 && this.maxRecords == maxRecords
    {
      var loaded := Load(file).value;
      data := loaded.data;
      indexes := loaded.indexes;
      schemas := loaded.schemas;
      transactionActive := false;
      transactionBackup := None;
      lastSaveTime := 0;
      this.file := file;
      this.maxRecords := maxRecords;
    }

    /** `save_database`, with the write itself reduced to replacing `file`. */
    method SaveDatabase(io: Io) returns (ok: bool)
      modifies this
      ensures data == old(data) && indexes == old(indexes) && schemas == old(schemas) && SameTransaction()
      ensures Saved(io, ok)
    {
      var outcome := SaveDecision(io.now, lastSaveTime, SaveInterval, transactionActive, io.writeOk);
      if outcome == Skipped {
        ok := true;
      } else if outcome == WriteFailed {
        ok := false;
      } else {
        file := Parsed(Wrapped(State(data, schemas, indexes), io.stamp));
        lastSaveTime := io.now;
        ok := true;
      }
    }

    /** `create_table`: an invalid name raises ValidationError, an existing table
        gives false, a new table starts empty with no indexes and keeps a schema
        only when one with fields is given. */
    method CreateTable(table: string, schema: Schema, io: Io) returns (r: Result<bool>)
      modifies this
      ensures !ValidTableName(table) ==> r == Err(Validation) && unchanged(this)
      ensures ValidTableName(table) && table in old(data) ==> r == Ok(false) && unchanged(this)
      ensures ValidTableName(table) && table !in old(data) ==>
        && data == old(data)[table := []]
        && indexes == old(indexes)[table := map[]]
        && schemas == (if schema == [] then old(schemas) else old(schemas)[table := schema])
        && SameTransaction() && r.Ok? && Saved(io, r.value)
    {
      if !ValidTableName(table) {
        return Err(Validation);
      }
      if table in data {
        return Ok(false);
      }
      data := data[table := []];
      indexes := indexes[table := map[]];
      if schema != [] {
        schemas := schemas[table := schema];
      }
      var ok := SaveDatabase(io);
      r := Ok(ok);
    }

    /** `drop_table` (its second definition, the one in force): false for a
        missing table, otherwise the table, its indexes and its schema go. */
    method DropTable(table: string, io: Io) returns (r: bool)
      modifies this
      ensures table !in old(data) ==> !r && unchanged(this)
      ensures table in old(data) ==>
        && data == old(data) - {table} && indexes == old(indexes) - {table} && schemas == old(schemas) - {table}
        && SameTransaction() && Saved(io, r)
    {
      if table !in data {
        return false;
      }
      data := data - {table};
      indexes := indexes - {table};
      schemas := schemas - {table};
      r := SaveDatabase(io);
    }

    /** `insert`: a missing table, a full table and a record the schema rejects
        raise (in that order of checks) and change nothing; otherwise the
        stamped record, with `_id` one more than the old length, goes last and
        every index of the table lists its position. */
    method Insert(table: string, rec: Record, io: Io) returns (r: Result<bool>)
      modifies this
      ensures table !in old(data) ==> r == Err(TableNotFound) && unchanged(this)
      ensures table in old(data) && |old(data[table])| >= maxRecords ==> r == Err(EngineError) && unchanged(this)
      ensures table in old(data) && |old(data[table])| < maxRecords && !ValidateRecord(old(schemas), table, rec) ==>
        r == Err(Validation) && unchanged(this)
      ensures table in old(data) && |old(data[table])| < maxRecords && ValidateRecord(old(schemas), table, rec) ==>
        var n := |old(data[table])|;
        var stored := Stamped(rec, io.stamp, n + 1);
        && data == old(data)[table := old(data[table]) + [stored]]
        && indexes == (if table in old(indexes) then old(indexes)[table := AppendToIndexes(old(indexes[table]), stored, n)] else old(indexes))
        && schemas == old(schemas) && SameTransaction() && r.Ok? && Saved(io, r.value)
      ensures r.Ok? ==> old(TableFresh(table)) ==> TableFresh(table)
    {
      if table !in data {
        return Err(TableNotFound);
      }
      if |data[table]| >= maxRecords {
        return Err(EngineError);
      }
      if !ValidateRecord(schemas, table, rec) {
        return Err(Validation);
      }
      var n := |data[table]|;
      var stored := Stamped(rec, io.stamp, n + 1);
      if table in indexes {
        if TableFresh(table) {
          InsertKeepsFresh(data[table], indexes[table], stored);
        }
        indexes := indexes[table := AppendToIndexes(indexes[table], stored, n)];
      }
      data := data[table := data[table] + [stored]];
      var ok := SaveDatabase(io);
      r := Ok(ok);
    }

    /** Whether `select` takes the index path: one literal clause on an indexed column. */
    predicate UsesIndex(table: string, cond: Condition)
      reads this
    {
      |cond| == 1 && table in indexes && cond[0].0 in indexes[table] && cond[0].1.Literal?
    }

    /** `select`: [] for a missing table; with no condition the page of the
        whole table; on the index path the page of the records the index lists
        (skipping positions past the end); otherwise the page of the records
        that match, in table order. While the table's indexes are fresh both
        paths give the same page. */
    method Select(table: string, cond: Option<Condition>, limit: Option<int>, offset: int) returns (r: Result<seq<Record>>)
      ensures table !in data ==> r == Ok([])
      ensures table in data && cond.None? ==> r == Ok(Page(data[table], limit, offset))
      ensures table in data && cond.Some? && UsesIndex(table, cond.value) ==>
        r == Ok(Page(Pick(data[table], PositionsOf(indexes[table][cond.value[0].0], cond.value[0].1.v)), limit, offset))
      ensures table in data && cond.Some? && !UsesIndex(table, cond.value) ==>
        && (r.Ok? ==> r.value == Page(Kept(data[table], cond.value, true), limit, offset))
        && (r.Err? ==> r.error == TypeMismatch)
        && ((forall k :: 0 <= k < |data[table]| ==> Comparable(data[table][k], cond.value)) ==> r.Ok?)
      ensures table in data && cond.Some? && TableFresh(table) && r.Ok? ==>
        r.value == Page(Kept(data[table], cond.value, true), limit, offset)
    {
      if table !in data {
        return Ok([]);
      }
      var rs := data[table];
      if cond.None? {
        return Ok(Page(rs, limit, offset));
      }
      var c := cond.value;
      if UsesIndex(table, c) {
        var hits := Pick(rs, PositionsOf(indexes[table][c[0].0], c[0].1.v));
        if TableFresh(table) {
          FreshIndexPathIsScan(rs, indexes[table], c[0].0, c[0].1.v);
          assert c == [(c[0].0, Literal(c[0].1.v))];
        }
        return Ok(Page(hits, limit, offset));
      }
      var result: seq<Record> := [];
      var i := 0;
      while i < |rs|
        invariant 0 <= i <= |rs|
        invariant result == Kept(rs[..i], c, true)
        invariant forall k :: 0 <= k < i ==> Match(rs[k], c).Ok?
      {
        assert rs[..i + 1][..i] == rs[..i];
        var m := Match(rs[i], c);
        if m.Err? {
          return Err(m.error);
        }
        if m.value {
          result := result + [rs[i]];
        }
        i := i + 1;
      }
      assert rs[..|rs|] == rs;
      r := Ok(Page(result, limit, offset));
    }

    /** `count`: 0 for a missing table, the table size without a condition,
        otherwise the number of records a full scan matches. */
    method Count(table: string, cond: Option<Condition>) returns (r: Result<nat>)
      ensures table !in data ==> r == Ok(0)
      ensures table in data && cond.None? ==> r == Ok(|data[table]|)
      ensures table in data && cond.Some? ==>
        && (r.Ok? ==> r.value == |Kept(data[table], cond.value, true)|)
        && (r.Err? ==> r.error == TypeMismatch)
        && ((forall k :: 0 <= k < |data[table]| ==> Comparable(data[table][k], cond.value)) ==> r.Ok?)
    {
      if table !in data {
        return Ok(0);
      }
      var rs := data[table];
      if cond.None? {
        return Ok(|rs|);
      }
      var c := cond.value;
      var n := 0;
      var i := 0;
      while i < |rs|
        invariant 0 <= i <= |rs|
        invariant n == |Kept(rs[..i], c, true)|
        invariant forall k :: 0 <= k < i ==> Match(rs[k], c).Ok?
      {
        assert rs[..i + 1][..i] == rs[..i];
        var m := Match(rs[i], c);
        if m.Err? {
          return Err(m.error);
        }
        if m.value {
          n := n + 1;
        }
        i := i + 1;
      }
      assert rs[..|rs|] == rs;
      r := Ok(n);
    }

    /** `list_tables`. */
    function ListTables(): (names: set<string>)
      reads this
      ensures forall t :: t in names <==> t in data
    {
      data.Keys
    }

    /** `list_indexes`: the indexed columns of an existing table; a missing table raises. */
    function ListIndexes(table: string): (r: Result<set<string>>)
      reads this
      ensures table !in data <==> r == Err(TableNotFound)
      ensures r.Ok? ==> forall c :: c in r.value <==> table in indexes && c in indexes[table]
    {
      if table !in data then Err(TableNotFound)
      else if table in indexes then Ok(indexes[table].Keys)
      else Ok({})
    }

    /** `create_index`: a missing table raises; a column that already has an
        index gives false and nothing changes; otherwise the table gets an
        index map if it had none and the column the index built from the
        current records. Nothing is saved. */
    method CreateIndex(table: string, column: string) returns (r: Result<bool>)
      modifies this
      ensures table !in old(data) ==> r == Err(TableNotFound) && unchanged(this)
      ensures table in old(data) && table in old(indexes) && column in old(indexes[table]) ==> r == Ok(false) && unchanged(this)
      ensures table in old(data) && !(table in old(indexes) && column in old(indexes[table])) ==>
        && r == Ok(true)
        && indexes == old(indexes)[table := (if table in old(indexes) then old(indexes[table]) else map[])[column := IndexFor(old(data)[table], column)]]
        && data == old(data) && schemas == old(schemas) && SameTransaction() && NotSaved()
      ensures old(TableFresh(table)) ==> TableFresh(table)
    {
      if table !in data {
        return Err(TableNotFound);
      }
      if table in indexes && column in indexes[table] {
        return Ok(false);
      }
      var ix := BuildIndex(data[table], column);
      var tix := if table in indexes then indexes[table] else map[];
      indexes := indexes[table := tix[column := ix]];
      r := Ok(true);
    }

    /** `drop_index`: false when the table has no index on the column; otherwise
        that index goes. Nothing is saved. */
    method DropIndex(table: string, column: string) returns (r: bool)
      modifies this
      ensures !(table in old(indexes) && column in old(indexes[table])) ==> !r && unchanged(this)
      ensures table in old(indexes) && column in old(indexes[table]) ==>
        && r && indexes == old(indexes)[table := old(indexes[table]) - {column}]
        && data == old(data) && schemas == old(schemas) && SameTransaction() && NotSaved()
      ensures old(TableFresh(table)) ==> TableFresh(table)
    {
      if !(table in indexes && column in indexes[table]) {
        return false;
      }
      indexes := indexes[table := indexes[table] - {column}];
      r := true;
    }

    /** `_rebuild_indexes` as written: it asks `create_index` for every indexed
        column, and `create_index` declines a column that already has an index,
        so nothing is rebuilt (and a table with indexes but no records list
        raises TableNotFound). */
    method RebuildIndexesAsWritten(table: string) returns (r: Option<Error>)
      modifies this
      ensures unchanged(this)
      ensures r.Some? ==> r.value == TableNotFound && table !in data
      ensures table in data ==> r.None?
    {
      if table !in indexes {
        return None;
      }
      var columns := indexes[table].Keys;
      while columns != {}
        invariant unchanged(this)
        invariant table in indexes && columns <= indexes[table].Keys
        decreases columns
      {
        var c :| c in columns;
        var created := CreateIndex(table, c);
        if created.Err? {
          return Some(created.error);
        }
        columns := columns - {c};
      }
      r := None;
    }

    /** The rebuild the name `_rebuild_indexes` promises: every index of the
        table recomputed from the table's current records, one column at a time. */
    method RebuildIndexes(table: string)
      modifies this
      ensures table in old(data) ==> indexes == RebuildTable(old(indexes), table, old(data)[table])
      ensures table !in old(data) ==> indexes == old(indexes)
      ensures data == old(data) && schemas == old(schemas) && SameTransaction() && NotSaved()
      ensures TableFresh(table)
    {
      if !(table in data && table in indexes) {
        return;
      }
      var rs := data[table];
      var tix := indexes[table];
      var rebuilt: TableIndexes := map[];
      var columns := tix.Keys;
      while columns != {}
        invariant unchanged(this)
        invariant columns <= tix.Keys
        invariant rebuilt.Keys == tix.Keys - columns
        invariant forall c :: c in rebuilt ==> rebuilt[c] == IndexFor(rs, c)
        decreases columns
      {
        var c :| c in columns;
        var ix := BuildIndex(rs, c);
        rebuilt := rebuilt[c := ix];
        columns := columns - {c};
      }
      assert rebuilt == Rebuild(tix, rs);
      indexes := indexes[table := rebuilt];
    }

    /** `update`: a missing table and an empty condition raise. Otherwise the
        loop of UpdateRun runs over the table in place: if it stops at an error
        the error is raised with the earlier updates kept and nothing rebuilt
        or saved; if it updated records the table's indexes are rebuilt and the
        database saved (its answer ignored); the result is the number updated.
        The rebuild is the corrected RebuildIndexes: the source's own
        `_rebuild_indexes` leaves the indexes as they were (RebuildIndexesAsWritten). */
    method Update(table: string, cond: Condition, newValues: Record, io: Io) returns (r: Result<nat>)
      modifies this
      ensures table !in old(data) ==> r == Err(TableNotFound) && unchanged(this)
      ensures table in old(data) && cond == [] ==> r == Err(Validation) && unchanged(this)
      ensures table in old(data) && cond != [] ==>
        var p := UpdateRun(old(data[table]), |old(data[table])|, cond, newValues, old(schemas), table, io.stamp);
        && data == old(data)[table := p.records]
        && schemas == old(schemas) && SameTransaction()
        && (p.failure.Some? ==> r == Err(p.failure.value) && indexes == old(indexes) && NotSaved())
        && (p.failure.None? && p.count == 0 ==> r == Ok(0) && indexes == old(indexes) && NotSaved())
        && (p.failure.None? && p.count > 0 ==>
              r == Ok(p.count) && indexes == RebuildTable(old(indexes), table, p.records) && SavedState(io, transactionActive))
      ensures r.Ok? && old(TableFresh(table)) ==> TableFresh(table)
    {
      if table !in data {
        return Err(TableNotFound);
      }
      if cond == [] {
        return Err(Validation);
      }
      var rs := data[table];
      var p := UpdateLoop(rs, cond, newValues, schemas, table, io.stamp);
      data := data[table := p.records];
      if p.failure.Some? {
        return Err(p.failure.value);
      }
      if p.count > 0 {
        RebuildIndexes(table);
        var _ := SaveDatabase(io);
      } else {
        UpdateRunMeaning(rs, |rs|, cond, newValues, old(schemas), table, io.stamp);
        assert rs[..|rs|] == rs;
        NoneKept(rs, cond);
        assert p.records == rs;
      }
      r := Ok(p.count);
    }

    /** `delete`: a missing table and an empty condition raise; a condition that
        raises on some record leaves the table as it was; otherwise the table
        keeps exactly its non-matching records, in order, and the result is
        how many matched. When some were removed the indexes are rebuilt and
        the database saved (its answer ignored). The rebuild is the corrected
        RebuildIndexes: the source's own `_rebuild_indexes` leaves the indexes
        as they were (RebuildIndexesAsWritten). */
    method Delete(table: string, cond: Condition, io: Io) returns (r: Result<nat>)
      modifies this
      ensures table !in old(data) ==> r == Err(TableNotFound) && unchanged(this)
      ensures table in old(data) && cond == [] ==> r == Err(Validation) && unchanged(this)
      ensures table in old(data) && cond != [] ==>
        && (r.Err? ==> r.error == TypeMismatch && unchanged(this))
        && ((forall k :: 0 <= k < |old(data[table])| ==> Comparable(old(data[table])[k], cond)) ==> r.Ok?)
        && (r.Ok? ==>
              && data == old(data)[table := Kept(old(data[table]), cond, false)]
              && r.value == |Kept(old(data[table]), cond, true)|
              && schemas == old(schemas) && SameTransaction()
              && (r.value == 0 ==> data == old(data) && indexes == old(indexes) && NotSaved())
              && (r.value > 0 ==> indexes == RebuildTable(old(indexes), table, data[table]) && SavedState(io, transactionActive)))
      ensures r.Ok? && old(TableFresh(table)) ==> TableFresh(table)
    {
      if table !in data {
        return Err(TableNotFound);
      }
      if cond == [] {
        return Err(Validation);
      }
      var rs := data[table];
      match Filter(rs, cond, false)
      case Err(e) =>
        return Err(e);
      case Ok(kept) =>
        KeptPartition(rs, cond);
        var deleted := |rs| - |kept|;
        if deleted == 0 {
          KeptAll(rs, cond, false);
        }
        data := data[table := kept];
        if deleted > 0 {
          RebuildIndexes(table);
          var _ := SaveDatabase(io);
        }
        r := Ok(deleted);
    }

    /** The entry of `transaction()`: with a transaction already active it
        raises ADBError; otherwise the flag is set and the records are
        snapshotted. */
    method BeginTransaction() returns (r: Option<Error>)
      modifies this
      ensures old(transactionActive) ==> r == Some(EngineError) && unchanged(this)
      ensures !old(transactionActive) ==>
        && r.None? && transactionActive && transactionBackup == Some(data)
        && data == old(data) && indexes == old(indexes) && schemas == old(schemas) && NotSaved()
    {
      if transactionActive {
        return Some(EngineError);
      }
      transactionActive := true;
      transactionBackup := Some(data);
      r := None;
    }

    /** The exit of `transaction()`: after an exception the records are put back
        from the snapshot (indexes and schemas are not); either way the flag and
        the snapshot are cleared. */
    method EndTransaction(failed: bool)
      requires transactionBackup.Some?
      modifies this
      ensures !transactionActive && transactionBackup.None? && Valid()
      ensures data == (if failed then old(transactionBackup.value) else old(data))
      ensures indexes == old(indexes) && schemas == old(schemas) && NotSaved()
    {
      if failed {
        data := transactionBackup.value;
      }
      transactionActive := false;
      transactionBackup := None;
    }

    /** One engine call in a transaction body; the error it raises, if any,
        and the records, schemas and indexes it leaves, as the called method
        states them. Opening a second transaction always raises. */
    method Apply(op: Op, io: Io) returns (r: Option<Error>)
      requires transactionActive
      modifies this
      ensures SameTransaction()
      ensures op.InsertOp? ==>
        && (op.table !in old(data) ==> r == Some(TableNotFound) && unchanged(this))
        && (op.table in old(data) && |old(data[op.table])| >= maxRecords ==> r == Some(EngineError) && unchanged(this))
        && (op.table in old(data) && |old(data[op.table])| < maxRecords && !ValidateRecord(old(schemas), op.table, op.rec) ==>
              r == Some(Validation) && unchanged(this))
        && (op.table in old(data) && |old(data[op.table])| < maxRecords && ValidateRecord(old(schemas), op.table, op.rec) ==>
              && r.None? && schemas == old(schemas)
              && data == old(data)[op.table := old(data[op.table]) + [Stamped(op.rec, io.stamp, |old(data[op.table])| + 1)]])
      ensures op.UpdateOp? ==>
        && (op.table !in old(data) ==> r == Some(TableNotFound) && unchanged(this))
        && (op.table in old(data) && op.cond == [] ==> r == Some(Validation) && unchanged(this))
        && (op.table in old(data) && op.cond != [] ==>
              var p := UpdateRun(old(data[op.table]), |old(data[op.table])|, op.cond, op.newValues, old(schemas), op.table, io.stamp);
              r == p.failure && data == old(data)[op.table := p.records] && schemas == old(schemas))
      ensures op.DeleteOp? ==>
        && (op.table !in old(data) ==> r == Some(TableNotFound) && unchanged(this))
        && (op.table in old(data) && op.cond == [] ==> r == Some(Validation) && unchanged(this))
        && (op.table in old(data) && op.cond != [] && r.Some? ==> r == Some(TypeMismatch) && unchanged(this))
        && (op.table in old(data) && op.cond != [] && r.None? ==>
              data == old(data)[op.table := Kept(old(data[op.table]), op.cond, false)] && schemas == old(schemas))
      ensures op.CreateIndexOp? ==>
        && (op.table !in old(data) ==> r == Some(TableNotFound) && unchanged(this))
        && (op.table in old(data) ==> r.None? && data == old(data) && schemas == old(schemas))
        && (op.table in old(data) && !(op.table in old(indexes) && op.column in old(indexes[op.table])) ==>
              indexes == old(indexes)[op.table := (if op.table in old(indexes) then old(indexes[op.table]) else map[])
                                                   [op.column := IndexFor(old(data)[op.table], op.column)]])
        && (op.table in old(data) && op.table in old(indexes) && op.column in old(indexes[op.table]) ==> indexes == old(indexes))
      ensures op.BeginOp? ==> r == Some(EngineError) && unchanged(this)
      ensures op.Raise? ==> r == Some(Raised) && unchanged(this)
    {
      match op
      case InsertOp(table, rec) =>
        var res := Insert(table, rec, io);
        r := if res.Err? then Some(res.error) else None;
      case UpdateOp(table, cond, newValues) =>
        var res := Update(table, cond, newValues, io);
        r := if res.Err? then Some(res.error) else None;
      case DeleteOp(table, cond) =>
        var res := Delete(table, cond, io);
        r := if res.Err? then Some(res.error) else None;
      case CreateIndexOp(table, column) =>
        var res := CreateIndex(table, column);
        r := if res.Err? then Some(res.error) else None;
      case BeginOp =>
        r := BeginTransaction();
      case Raise =>
        r := Some(Raised);
    }

    /** `with db.transaction(): body`. A transaction cannot start inside
        another. When the body raises, the records are restored (indexes and
        schemas keep the body's changes) and the error goes on; otherwise the
        database is saved, and since the save happens with the flag still set
        it is never throttled. The flag and the snapshot are always cleared. */
    method RunTransaction(body: seq<Op>, io: Io) returns (r: Option<Error>)
      requires Valid()
      modifies this
      ensures Valid()
      ensures old(transactionActive) ==> r == Some(EngineError) && unchanged(this)
      ensures !old(transactionActive) ==> !transactionActive
      ensures !old(transactionActive) && r.Some? ==> data == old(data)
      ensures !old(transactionActive) && BeginOp in body ==> r.Some?
      ensures !old(transactionActive) && Raise in body ==> r.Some?
      ensures !old(transactionActive) && r.None? && io.writeOk ==>
        file == Parsed(Wrapped(State(data, schemas, indexes), io.stamp)) && lastSaveTime == io.now
    {
      var begun := BeginTransaction();
      if begun.Some? {
        return begun;
      }
      var i := 0;
      while i < |body|
        invariant 0 <= i <= |body|
        invariant transactionActive && transactionBackup == Some(old(data))
        invariant BeginOp in body ==> BeginOp in body[i..]
        invariant Raise in body ==> Raise in body[i..]
      {
        assert body[i..] == [body[i]] + body[i + 1..];
        var e := Apply(body[i], io);
        if e.Some? {
          EndTransaction(true);
          return e;
        }
        i := i + 1;
      }
      var _ := SaveDatabase(io);
      EndTransaction(false);
      r := None;
    }

    /** `aggregate`: [] for a missing table, otherwise the pipeline run stage by
        stage over a working list. */
    method Aggregate(table: string, pipeline: seq<Stage>) returns (r: Result<seq<Record>>)
      ensures table !in data ==> r == Ok([])
      ensures table in data ==> r == RunPipeline(data[table], pipeline)
    {
      if table !in data {
        return Ok([]);
      }
      var records := data[table];
      var i := 0;
      while i < |pipeline|
        invariant 0 <= i <= |pipeline|
        invariant RunPipeline(data[table], pipeline) == RunPipeline(records, pipeline[i..])
      {
        var stage := pipeline[i];
        assert pipeline[i..][0] == stage && pipeline[i..][1..] == pipeline[i + 1..];
        if stage.group.Some? {
          records := GroupStage(records, stage.group.value);
        } else if stage.filter.Some? {
          var kept := Filter(records, stage.filter.value, true);
          if kept.Err? {
            return Err(kept.error);
          }
          records := kept.value;
        }
        i := i + 1;
      }
      r := Ok(records);
    }

    /** `rename_table`: false when the old name is missing or the new one taken;
        otherwise the records, and the indexes and schema where present, move
        to the new name. The name is not validated. */
    method RenameTable(oldName: string, newName: string, io: Io) returns (r: bool)
      modifies this
      ensures oldName !in old(data) || newName in old(data) ==> !r && unchanged(this)
      ensures oldName in old(data) && newName !in old(data) ==>
        && data == (old(data) - {oldName})[newName := old(data)[oldName]]
        && indexes == (if oldName in old(indexes) then (old(indexes) - {oldName})[newName := old(indexes)[oldName]] else old(indexes))
        && schemas == (if oldName in old(schemas) then (old(schemas) - {oldName})[newName := old(schemas)[oldName]] else old(schemas))
        && SameTransaction() && Saved(io, r)
      ensures oldName in old(data) && newName !in old(data) && old(TableFresh(oldName)) && (oldName in old(indexes) || newName !in old(indexes)) ==>
        TableFresh(newName)
    {
      if oldName !in data || newName in data {
        return false;
      }
      data := (data - {oldName})[newName := data[oldName]];
      if oldName in indexes {
        indexes := (indexes - {oldName})[newName := indexes[oldName]];
      }
      if oldName in schemas {
        schemas := (schemas - {oldName})[newName := schemas[oldName]];
      }
      r := SaveDatabase(io);
    }

    /** `truncate_table`: false for a missing table; otherwise the table is
        emptied and every one of its indexes emptied, keeping the schema, so
        the indexes are fresh afterwards. */
    method TruncateTable(table: string, io: Io) returns (r: bool)
      modifies this
      ensures table !in old(data) ==> !r && unchanged(this)
      ensures table in old(data) ==>
        && data == old(data)[table := []]
        && indexes == (if table in old(indexes) then old(indexes)[table := map c | c in old(indexes)[table] :: map[]] else old(indexes))
        && schemas == old(schemas) && SameTransaction() && Saved(io, r)
        && TableFresh(table)
    {
      if table !in data {
        return false;
      }
      data := data[table := []];
      if table in indexes {
        indexes := indexes[table := map c | c in indexes[table] :: map[]];
      }
      r := SaveDatabase(io);
    }

    /** `get_schema`. */
    function GetSchema(table: string): (r: Option<Schema>)
      reads this
      ensures r.Some? <==> table in schemas
      ensures r.Some? ==> r.value == schemas[table]
    {
      if table in schemas then Some(schemas[table]) else None
    }

    /** `set_schema`: false for a missing table; otherwise the schema (any
        schema, even an empty one) replaces the table's own. */
    method SetSchema(table: string, schema: Schema, io: Io) returns (r: bool)
      modifies this
      ensures table !in old(data) ==> !r && unchanged(this)
      ensures table in old(data) ==>
        && schemas == old(schemas)[table := schema] && GetSchema(table) == Some(schema)
        && data == old(data) && indexes == old(indexes) && SameTransaction() && Saved(io, r)
    {
      if table !in data {
        return false;
      }
      schemas := schemas[table := schema];
      r := SaveDatabase(io);
    }

    /** `alter_table`: false for a missing table. `add_column` puts the column's
        definition into the schema (only when the table has one) and gives
        every record lacking the column the default; `drop_column` removes the
        column from the schema, from every record and from the indexes; any
        other action only saves. */
    method AlterTable(table: string, action: AlterAction, io: Io) returns (r: bool)
      modifies this
      ensures table !in old(data) ==> !r && unchanged(this)
      ensures table in old(data) ==>
        && table in data && |data[table]| == |old(data)[table]|
        && data == old(data)[table := data[table]]
        && SameTransaction() && Saved(io, r)
      ensures table in old(data) && action.AddColumn? ==>
        && (forall k :: 0 <= k < |data[table]| ==>
              data[table][k] == WithColumn(old(data)[table][k], action.column, action.default))
        && schemas == (if table in old(schemas) then old(schemas)[table := SchemaPut(old(schemas)[table], action.column, action.definition)] else old(schemas))
        && indexes == old(indexes)
      ensures table in old(data) && action.DropColumn? ==>
        && (forall k :: 0 <= k < |data[table]| ==> data[table][k] == WithoutColumn(old(data)[table][k], action.column))
        && schemas == (if table in old(schemas) && ConstraintOf(old(schemas)[table], action.column).Some?
                       then old(schemas)[table := SchemaRemove(old(schemas)[table], action.column)] else old(schemas))
        && indexes == (if table in old(indexes) && action.column in old(indexes)[table]
                       then old(indexes)[table := old(indexes)[table] - {action.column}] else old(indexes))
      ensures table in old(data) && action.OtherAction? ==>
        data == old(data) && indexes == old(indexes) && schemas == old(schemas)
      ensures table in old(data) && old(TableFresh(table)) && !action.AddColumn? ==> TableFresh(table)
      ensures table in old(data) && old(TableFresh(table)) && action.AddColumn? && table in indexes ==>
        forall c :: c in indexes[table] && c != action.column ==> indexes[table][c] == IndexFor(data[table], c)
    {
      if table !in data {
        return false;
      }
      var rs := data[table];
      match action {
      case AddColumn(column, definition, default) =>
        if table in schemas {
          schemas := schemas[table := SchemaPut(schemas[table], column, definition)];
        }
        var records := rs;
        var i := 0;
        while i < |records|
          invariant 0 <= i <= |records| == |rs|
          invariant forall k :: 0 <= k < i ==> records[k] == WithColumn(rs[k], column, default)
          invariant forall k :: i <= k < |rs| ==> records[k] == rs[k]
        {
          records := records[i := WithColumn(records[i], column, default)];
          i := i + 1;
        }
        data := data[table := records];
        forall c | c != column ensures IndexFor(records, c) == IndexFor(rs, c) {
          IndexForSameColumn(records, rs, c);
        }
      case DropColumn(column) =>
        if table in schemas && ConstraintOf(schemas[table], column).Some? {
          schemas := schemas[table := SchemaRemove(schemas[table], column)];
        }
        var records := rs;
        var i := 0;
        while i < |records|
          invariant 0 <= i <= |records| == |rs|
          invariant forall k :: 0 <= k < i ==> records[k] == WithoutColumn(rs[k], column)
          invariant forall k :: i <= k < |rs| ==> records[k] == rs[k]
        {
          records := records[i := WithoutColumn(records[i], column)];
          i := i + 1;
        }
        data := data[table := records];
        if table in indexes && column in indexes[table] {
          indexes := indexes[table := indexes[table] - {column}];
        }
        forall c | c != column ensures IndexFor(records, c) == IndexFor(rs, c) {
          IndexForSameColumn(records, rs, c);
        }
      case OtherAction =>
      }
      r := SaveDatabase(io);
    }

    /** `optimize_table`: false for a missing table; otherwise `_rebuild_indexes`
        is called, then every record's `_id` is set to its position plus one,
        and the database saved. The call is the corrected RebuildIndexes (the
        source's own leaves the indexes as they were). Since the call comes
        before the renumbering, even the corrected rebuild leaves an index on
        `_id` listing the old numbers. */
    method OptimizeTable(table: string, io: Io) returns (r: bool)
      modifies this
      ensures table !in old(data) ==> !r && unchanged(this)
      ensures table in old(data) ==>
        && table in data && |data[table]| == |old(data)[table]|
        && (forall k :: 0 <= k < |data[table]| ==> data[table][k] == old(data)[table][k]["_id" := Int(k + 1)])
        && data == old(data)[table := data[table]]
        && indexes == RebuildTable(old(indexes), table, old(data)[table])
        && schemas == old(schemas) && SameTransaction() && Saved(io, r)
      ensures table in old(data) && table in indexes ==>
        forall c :: c in indexes[table] && c != "_id" ==> indexes[table][c] == IndexFor(data[table], c)
    {
      if table !in data {
        return false;
      }
      RebuildIndexes(table);
      var rs := data[table];
      var records := rs;
      var i := 0;
      while i < |records|
        invariant 0 <= i <= |records| == |rs|
        invariant forall k :: 0 <= k < i ==> records[k] == rs[k]["_id" := Int(k + 1)]
        invariant forall k :: i <= k < |rs| ==> records[k] == rs[k]
      {
        records := records[i := records[i]["_id" := Int(i + 1)]];
        i := i + 1;
      }
      data := data[table := records];
      forall c | c != "_id" ensures IndexFor(records, c) == IndexFor(rs, c) {
        IndexForSameColumn(records, rs, c);
      }
      r := SaveDatabase(io);
    }

    /** `explain_query`: a full scan of no rows for a missing table; otherwise
        an estimate of the table size, and, when there is a non-empty condition
        and the table has an index map, a pass over the condition's keys that
        lists each indexed one (switching to an index scan) and takes the
        position count of each indexed literal as the estimate. */
    method ExplainQuery(table: string, cond: Option<Condition>) returns (p: Plan)
      ensures p.table == table && p.condition == cond
      ensures table !in data ==> p == Plan(table, FullScan, 0, [], cond)
      ensures table in data && !(cond.Some? && cond.value != [] && table in indexes) ==>
        p == Plan(table, FullScan, |data[table]|, [], cond)
      ensures table in data && cond.Some? && cond.value != [] && table in indexes ==>
        && p.indexesUsed == IndexedKeys(cond.value, indexes[table])
        && p.estimatedRows == Estimate(cond.value, indexes[table], |data[table]|)
      ensures p.scanType == IndexScan <==> p.indexesUsed != []
      ensures forall k :: k in p.indexesUsed <==>
        table in data && cond.Some? && table in indexes && k in indexes[table] && KeyIn(cond.value, k)
      ensures (table in data && TableFresh(table) && cond.Some? && |cond.value| == 1 && cond.value[0].1.Literal? &&
               table in indexes && cond.value[0].0 in indexes[table]) ==>
        p.estimatedRows == |Kept(data[table], cond.value, true)|
    {
      if table !in data {
        return Plan(table, FullScan, 0, [], cond);
      }
      var rows := |data[table]|;
      if !(cond.Some? && cond.value != [] && table in indexes) {
        return Plan(table, FullScan, rows, [], cond);
      }
      var c := cond.value;
      var tix := indexes[table];
      var scan := FullScan;
      var estimate := rows;
      var used: seq<string> := [];
      var i := 0;
      while i < |c|
        invariant 0 <= i <= |c|
        invariant used == IndexedKeys(c[..i], tix) && estimate == Estimate(c[..i], tix, rows)
        invariant scan == IndexScan <==> used != []
      {
        ExplainStep(c, i, tix, rows);
        var key := c[i].0;
        if key in tix {
          scan := IndexScan;
          used := used + [key];
          if c[i].1.Literal? {
            estimate := |PositionsOf(tix[key], c[i].1.v)|;
          }
        }
        i := i + 1;
      }
      assert c[..|c|] == c;
      p := Plan(table, scan, estimate, used, cond);
      if TableFresh(table) && |c| == 1 && c[0].1.Literal? && c[0].0 in tix {
        assert c == [(c[0].0, Literal(c[0].1.v))];
        EstimateIsExact(data[table], tix, c[0].0, c[0].1.v);
      }
    }

    /** `analyze_table`: `{}` for a missing table, `{record_count: 0}` for an
        empty one; otherwise one pass over the records giving, for every column
        some record holds, the type of its first value, its number of None
        values and its number of distinct printed other values. */
    method AnalyzeTable(table: string) returns (r: Analysis)
      ensures table !in data ==> r == NoTable
      ensures table in data && data[table] == [] ==> r == EmptyTable
      ensures table in data && data[table] != [] ==>
        && r.Analysis? && r.recordCount == |data[table]|
        && r.nullCounts.Keys == r.dataTypes.Keys && r.uniqueCounts.Keys == r.dataTypes.Keys
        && (forall c :: c in r.dataTypes <==> FirstType(data[table], c).Some?)
        && (forall c :: c in r.dataTypes ==>
              && r.dataTypes[c] == FirstType(data[table], c).value
              && r.nullCounts[c] == NullCount(data[table], c)
              && r.uniqueCounts[c] == |Printed(data[table], c)|)
    {
      if table !in data {
        return NoTable;
      }
      var rs := data[table];
      if rs == [] {
        return EmptyTable;
      }
      var st := CollectStats(rs);
      var counts := map c | c in st.uniques :: |st.uniques[c]|;
      r := Analysis(|rs|, st.types, st.nulls, counts);
    }

    /** One record of `import_data`: in `insert` mode an insert; in `replace`
        mode the records with its `_id` deleted first; in `update` mode an
        update of the records with its `_id`, or an insert when it has none or
        none was updated. The error raised, if any. */
    method ImportRecord(table: string, rec: Record, mode: ImportMode, io: Io) returns (r: Option<Error>)
      requires table in data && mode != OtherMode
      modifies this
      ensures SameTransaction() && table in data
      ensures mode == InsertMode ==> |data[table]| == |old(data)[table]| + (if r.None? then 1 else 0)
    {
      match mode {
      case InsertMode =>
        var res := Insert(table, rec, io);
        r := if res.Err? then Some(res.error) else None;
      case ReplaceMode =>
        if "_id" in rec {
          var removed := Delete(table, [("_id", Literal(rec["_id"]))], io);
          if removed.Err? {
            return Some(removed.error);
          }
        }
        var res := Insert(table, rec, io);
        r := if res.Err? then Some(res.error) else None;
      case UpdateMode =>
        if "_id" in rec {
          var updated := Update(table, [("_id", Literal(rec["_id"]))], rec, io);
          if updated.Err? {
            return Some(updated.error);
          }
          if updated.value > 0 {
            return None;
          }
        }
        var res := Insert(table, rec, io);
        r := if res.Err? then Some(res.error) else None;
      }
    }

    /** `import_data`: `{error, imported: 0}` for a missing table; a transaction
        already active is reported as `transaction_error` with nothing done;
        otherwise every record is imported inside one transaction, each failure
        counted as an error and the rest as imported (an unknown mode does
        nothing), and the transaction commits. `skipped` is never incremented. */
    method ImportData(table: string, records: seq<Record>, mode: ImportMode, io: Io) returns (r: ImportReport)
      requires Valid()
      modifies this
      ensures Valid()
      ensures table !in old(data) ==> r == TableMissing && unchanged(this)
      ensures table in old(data) && old(transactionActive) ==> r == Report(0, 0, 0, true) && unchanged(this)
      ensures table in old(data) && !old(transactionActive) ==>
        && r.Report? && !r.transactionError && r.skipped == 0 && !transactionActive
        && (mode == OtherMode ==> r.imported == 0 && r.errors == 0 && data == old(data))
        && (mode != OtherMode ==> r.imported + r.errors == |records|)
        && (mode == InsertMode ==> table in data && |data[table]| == |old(data)[table]| + r.imported)
    {
      if table !in data {
        return TableMissing;
      }
      var begun := BeginTransaction();
      if begun.Some? {
        return Report(0, 0, 0, true);
      }
      var imported, errors := 0, 0;
      if mode != OtherMode {
        var i := 0;
        while i < |records|
          invariant 0 <= i <= |records|
          invariant imported + errors == i
          invariant table in data && transactionActive && transactionBackup.Some?
          invariant mode == InsertMode ==> |data[table]| == |old(data)[table]| + imported
        {
          var e := ImportRecord(table, records[i], mode, io);
          if e.Some? {
            errors := errors + 1;
          } else {
            imported := imported + 1;
          }
          i := i + 1;
        }
      }
      var _ := SaveDatabase(io);
      EndTransaction(false);
      r := Report(imported, 0, errors, false);
    }

    /** `execute_sql_like`: a row count of the table the upper-cased query
        names, the table names, or ADBError for anything else. Since the table
        name is upper-cased too, a table whose name holds a lower-case letter
        always counts as missing. */
    method ExecuteSqlLike(query: string) returns (r: Result<SqlAnswer>)
      ensures SqlLike.Parse(query).Unsupported? <==> r == Err(EngineError)
      ensures SqlLike.Parse(query).ShowTables? ==> r == Ok(TableNames(ListTables()))
      ensures SqlLike.Parse(query).CountRows? ==>
        var t := SqlLike.Parse(query).table;
        r == Ok(RowCount(if t in data then |data[t]| else 0))
      ensures SqlLike.StartsWith(SqlLike.Upper(SqlLike.Strip(query)), SqlLike.CountPrefix) ==>
        r.Ok? && r.value.RowCount? && SqlLike.NoLowerCase(SqlLike.Parse(query).table)
    {
      var q := SqlLike.Upper(SqlLike.Strip(query));
      if SqlLike.StartsWith(q, SqlLike.CountPrefix) {
        SqlLike.CountedTableIsUpperCase(query);
      }
      match SqlLike.Parse(query)
      case CountRows(t) =>
        var n := Count(t, None);
        r := Ok(RowCount(n.value));
      case ShowTables =>
        r := Ok(TableNames(ListTables()));
      case Unsupported(_) =>
        r := Err(EngineError);
    }
  }
}
