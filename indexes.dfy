/**
 * Secondary indexes: for one (table, column), a map from each value of the column
 * to the positions (0-based places in the table's list, not `_id`s) of the
 * records holding it. Covers the index `create_index` builds, the append done
 * on insert, the index path of `select`, and rebuilding.
 */
module Indexes {
  import opened Values
  import opened Matcher

  /** One column's index. */
  type ColumnIndex = map<Value, seq<nat>>

  /** A table's indexes: column name to that column's index. */
  type TableIndexes = map<string, ColumnIndex>

  /** `index.get(value, [])`. */
  function PositionsOf(ix: ColumnIndex, v: Value): seq<nat>
  {
    if v in ix then ix[v] else []
  }

  /** `if value not in index: index[value] = []` then `index[value].append(pos)`. */
  function AddPosition(ix: ColumnIndex, v: Value, pos: nat): (r: ColumnIndex)
    ensures PositionsOf(r, v) == PositionsOf(ix, v) + [pos]
    ensures forall w :: w != v ==> PositionsOf(r, w) == PositionsOf(ix, w)
    ensures r.Keys == ix.Keys + {v}
  {
    ix[v := PositionsOf(ix, v) + [pos]]
  }

  /** The record holds `v` in column `col`. */
  predicate HasValue(r: Record, col: string, v: Value)
  {
    col in r && r[col] == v
  }

  /** The index `create_index` builds over the records `rs` for column `col`:
      each record holding the column adds its position under its value. */
  function IndexFor(rs: seq<Record>, col: string): ColumnIndex
    decreases |rs|
  {
    if rs == [] then map[]
    else
      var prev := IndexFor(rs[..|rs| - 1], col);
      var last := rs[|rs| - 1];
      if col in last then AddPosition(prev, last[col], |rs| - 1) else prev
  }

  predicate Ascending(ps: seq<nat>)
  {
    forall a, b :: 0 <= a < b < |ps| ==> ps[a] < ps[b]
  }

  /** The list a freshly built index gives a value, one record at a time. */
  lemma PositionsOfStep(rs: seq<Record>, col: string, v: Value)
    requires rs != []
    ensures PositionsOf(IndexFor(rs, col), v) ==
      PositionsOf(IndexFor(rs[..|rs| - 1], col), v) + (if HasValue(rs[|rs| - 1], col, v) then [|rs| - 1] else [])
  {
  }

  /** Every position a freshly built index lists for a value is in range and
      holds that value. */
  lemma {:induction false} IndexForSound(rs: seq<Record>, col: string, v: Value)
    ensures var ps := PositionsOf(IndexFor(rs, col), v);
      forall k :: 0 <= k < |ps| ==> ps[k] < |rs| && HasValue(rs[ps[k]], col, v)
    decreases |rs|
  {
    if rs != [] {
      var pre := rs[..|rs| - 1];
      IndexForSound(pre, col, v);
      PositionsOfStep(rs, col, v);
      var ps0 := PositionsOf(IndexFor(pre, col), v);
      var ps := PositionsOf(IndexFor(rs, col), v);
      forall k | 0 <= k < |ps| ensures ps[k] < |rs| && HasValue(rs[ps[k]], col, v) {
        if k < |ps0| {
          assert ps[k] == ps0[k];
          assert rs[ps[k]] == pre[ps0[k]];
        }
      }
    }
  }

  /** Every position holding a value is listed under it. */
  lemma {:induction false} IndexForComplete(rs: seq<Record>, col: string, v: Value)
    ensures forall i :: 0 <= i < |rs| && HasValue(rs[i], col, v) ==> i in PositionsOf(IndexFor(rs, col), v)
    decreases |rs|
  {
    if rs != [] {
      var pre := rs[..|rs| - 1];
      IndexForComplete(pre, col, v);
      PositionsOfStep(rs, col, v);
      forall i | 0 <= i < |rs| && HasValue(rs[i], col, v) ensures i in PositionsOf(IndexFor(rs, col), v) {
        if i < |pre| { assert rs[i] == pre[i]; }
      }
    }
  }

  /** The positions listed under a value are strictly ascending. */
  lemma {:induction false} IndexForAscending(rs: seq<Record>, col: string, v: Value)
    ensures Ascending(PositionsOf(IndexFor(rs, col), v))
    decreases |rs|
  {
    if rs != [] {
      var pre := rs[..|rs| - 1];
      IndexForAscending(pre, col, v);
      IndexForSound(pre, col, v);
      PositionsOfStep(rs, col, v);
    }
  }

  /** A freshly built index has a key exactly for each value some record holds. */
  lemma {:induction false} IndexForKeys(rs: seq<Record>, col: string, v: Value)
    ensures v in IndexFor(rs, col) <==> exists i :: 0 <= i < |rs| && HasValue(rs[i], col, v)
    decreases |rs|
  {
    if rs != [] {
      var pre := rs[..|rs| - 1];
      IndexForKeys(pre, col, v);
      assert forall i :: 0 <= i < |pre| ==> rs[i] == pre[i];
      if exists i :: 0 <= i < |rs| && HasValue(rs[i], col, v) {
        var i :| 0 <= i < |rs| && HasValue(rs[i], col, v);
        if i < |pre| { assert HasValue(pre[i], col, v); }
      }
    }
  }

  /** The index path of `select`: `[records[i] for i in positions if i < len(records)]`. */
  function Pick(rs: seq<Record>, ps: seq<nat>): (r: seq<Record>)
    ensures |r| <= |ps|
    ensures forall x :: x in r ==> x in rs
  {
    if ps == [] then []
    else (if ps[0] < |rs| then [rs[ps[0]]] else []) + Pick(rs, ps[1..])
  }

  lemma {:induction false} PickAppend(rs: seq<Record>, ps: seq<nat>, p: nat)
    ensures Pick(rs, ps + [p]) == Pick(rs, ps) + (if p < |rs| then [rs[p]] else [])
  {
    if ps == [] {
      assert ps + [p] == [p];
    } else {
      assert (ps + [p])[1..] == ps[1..] + [p];
      PickAppend(rs, ps[1..], p);
    }
  }

  lemma {:induction false} PickExtend(rs: seq<Record>, r: Record, ps: seq<nat>)
    requires forall k :: 0 <= k < |ps| ==> ps[k] < |rs|
    ensures Pick(rs + [r], ps) == Pick(rs, ps)
  {
    if ps != [] { PickExtend(rs, r, ps[1..]); }
  }

  /** A one-literal condition holds exactly on records holding the value. */
  lemma SatisfiesLiteral(rec: Record, col: string, v: Value)
    ensures Satisfies(rec, [(col, Literal(v))]) <==> HasValue(rec, col, v)
  {
    var cond := [(col, Literal(v))];
    assert Holds(rec, cond[0].0, cond[0].1) <==> HasValue(rec, col, v);
  }

  /** On an index built from the current records, the index path for
      `{col: v}` returns the same records, in the same order, as the full scan. */
  lemma {:induction false} IndexPathIsScan(rs: seq<Record>, col: string, v: Value)
    ensures Pick(rs, PositionsOf(IndexFor(rs, col), v)) == Kept(rs, [(col, Literal(v))], true)
    decreases |rs|
  {
    if rs != [] {
      var pre := rs[..|rs| - 1];
      var last := rs[|rs| - 1];
      var ps := PositionsOf(IndexFor(pre, col), v);
      var cond := [(col, Literal(v))];
      IndexPathIsScan(pre, col, v);
      IndexForSound(pre, col, v);
      PositionsOfStep(rs, col, v);
      assert rs == pre + [last];
      PickExtend(pre, last, ps);
      SatisfiesLiteral(last, col, v);
      assert Kept(rs, cond, true) == Kept(pre, cond, true) + (if HasValue(last, col, v) then [last] else []);
      if HasValue(last, col, v) {
        PickAppend(rs, ps, |pre|);
      } else {
        assert PositionsOf(IndexFor(rs, col), v) == ps;
      }
    }
  }

  // ---------------------------------------------------------------------------
  // Keeping a table's indexes in step with its records.

  /** Every index of the table is what `create_index` would build from the current records. */
  ghost predicate Fresh(rs: seq<Record>, tix: TableIndexes)
  {
    forall c :: c in tix ==> tix[c] == IndexFor(rs, c)
  }

  /** What `_update_indexes_for_insert` does to a table's indexes: every indexed
      column the new record holds gets position `pos` under the record's value. */
  function AppendToIndexes(tix: TableIndexes, rec: Record, pos: nat): (r: TableIndexes)
    ensures r.Keys == tix.Keys
  {
    map c | c in tix :: if c in rec then AddPosition(tix[c], rec[c], pos) else tix[c]
  }

  /** Appending a record and its position keeps fresh indexes fresh. */
  lemma InsertKeepsFresh(rs: seq<Record>, tix: TableIndexes, rec: Record)
    requires Fresh(rs, tix)
    ensures Fresh(rs + [rec], AppendToIndexes(tix, rec, |rs|))
  {
    assert (rs + [rec])[..|rs|] == rs;
  }

  /** On fresh indexes, the index path for a literal on an indexed column
      returns what the full scan returns. */
  lemma FreshIndexPathIsScan(rs: seq<Record>, tix: TableIndexes, col: string, v: Value)
    requires Fresh(rs, tix) && col in tix
    ensures Pick(rs, PositionsOf(tix[col], v)) == Kept(rs, [(col, Literal(v))], true)
  {
    IndexPathIsScan(rs, col, v);
  }

  /** The two record lists agree, position by position, on column `col`. */
  predicate SameColumn(rs: seq<Record>, rs2: seq<Record>, col: string)
  {
    |rs| == |rs2| &&
    forall k :: 0 <= k < |rs| ==> (col in rs[k] <==> col in rs2[k]) && (col in rs[k] ==> rs[k][col] == rs2[k][col])
  }

  /** An index depends only on its own column: edits elsewhere leave it as built. */
  lemma {:induction false} IndexForSameColumn(rs: seq<Record>, rs2: seq<Record>, col: string)
    requires SameColumn(rs, rs2, col)
    ensures IndexFor(rs, col) == IndexFor(rs2, col)
    decreases |rs|
  {
    if rs != [] {
      IndexForSameColumn(rs[..|rs| - 1], rs2[..|rs2| - 1], col);
    }
  }

  /** Rebuilding as the name `_rebuild_indexes` promises: every existing index
      recomputed from the current records. */
  function Rebuild(tix: TableIndexes, rs: seq<Record>): (r: TableIndexes)
    ensures r.Keys == tix.Keys
    ensures Fresh(rs, r)
  {
    map c | c in tix :: IndexFor(rs, c)
  }

  /** The loop of `create_index`: one pass over the records, appending each
      position under the record's value of the column. */
  method BuildIndex(rs: seq<Record>, col: string) returns (ix: ColumnIndex)
    ensures ix == IndexFor(rs, col)
  {
    ix := map[];
    var i := 0;
    while i < |rs|
      invariant 0 <= i <= |rs|
      invariant ix == IndexFor(rs[..i], col)
    {
      assert rs[..i + 1][..i] == rs[..i];
      if col in rs[i] {
        ix := AddPosition(ix, rs[i][col], i);
      }
      i := i + 1;
    }
    assert rs[..|rs|] == rs;
  }

  // ---------------------------------------------------------------------------
  // The stale index the source leaves after a delete.

  /** Records of the form `{dept: d, age: a}`. */
  function Staff(dept: string, age: int): Record
  {
    map["dept" := Str(dept), "age" := Int(age)]
  }

  /** With indexes left as they were before a delete (which is what the source's
      rebuild amounts to), the index path returns a record of the wrong
      department: an index on `dept` over eng/20, eng/40, hr/30, then deleting
      `{age: 20}`, makes `{dept: "eng"}` return eng/40 and hr/30, where the scan
      returns eng/40 alone. */
  lemma StaleIndexAfterDelete()
    ensures
      var before := [Staff("eng", 20), Staff("eng", 40), Staff("hr", 30)];
      var after := [Staff("eng", 40), Staff("hr", 30)];
      var stale := IndexFor(before, "dept");
      && Kept(before, [("age", Literal(Int(20)))], false) == after
      && Pick(after, PositionsOf(stale, Str("eng"))) == [Staff("eng", 40), Staff("hr", 30)]
      && Kept(after, [("dept", Literal(Str("eng")))], true) == [Staff("eng", 40)]
  {
    var e20, e40, h30 := Staff("eng", 20), Staff("eng", 40), Staff("hr", 30);
    var before := [e20, e40, h30];
    var after := [e40, h30];
    var age20, eng := Int(20), Str("eng");
    assert e20["age"] == age20 && e40["age"] != age20 && h30["age"] != age20;
    assert e20["dept"] == eng && e40["dept"] == eng && h30["dept"] != eng;
    SatisfiesLiteral(e20, "age", age20);
    SatisfiesLiteral(e40, "age", age20);
    SatisfiesLiteral(h30, "age", age20);
    SatisfiesLiteral(e40, "dept", eng);
    SatisfiesLiteral(h30, "dept", eng);
    assert before[..2] == [e20, e40] && [e20, e40][..1] == [e20] && [e20][..0] == [];
    assert after[..1] == [e40] && [e40][..0] == [];
    var byAge := [("age", Literal(age20))];
    assert Kept([e20], byAge, false) == [];
    assert Kept([e20, e40], byAge, false) == [e40];
    PositionsOfStep([e20], "dept", eng);
    PositionsOfStep([e20, e40], "dept", eng);
    PositionsOfStep(before, "dept", eng);
    assert PositionsOf(IndexFor(before, "dept"), eng) == [0, 1];
  }
}
