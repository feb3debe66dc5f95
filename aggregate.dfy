/**
 * The aggregation pipeline of `aggregate`: a fold over a working list of
 * records, where a `$group` stage replaces the list by one `{_id, count}`
 * record per distinct key and a `$match` stage filters it with the matcher.
 */
module Aggregation {
  import opened Values
  import opened Matcher

  /** One pipeline stage. `$group` is checked first, so a stage holding both
      groups; a stage holding neither leaves the working list as it is. */
  datatype Stage = Stage(group: Option<string>, filter: Option<Condition>)

  /** `record.get(field, 'null')`: a record without the field is grouped under
      the string "null" (a field holding None is grouped under None). */
  function GroupKey(rec: Record, field: string): Value
  {
    if field in rec then rec[field] else Str("null")
  }

  /** A group: its key and how many records fell into it. */
  type Group = (Value, nat)

  /** Where the group with key `k` sits, if there is one. */
  function FindGroup(gs: seq<Group>, k: Value): (r: Option<nat>)
    ensures r.Some? ==> r.value < |gs| && gs[r.value].0 == k
    ensures r.None? ==> forall i :: 0 <= i < |gs| ==> gs[i].0 != k
  {
    if gs == [] then None
    else if gs[|gs| - 1].0 == k then Some(|gs| - 1)
    else FindGroup(gs[..|gs| - 1], k)
  }

  /** One record's step of the grouping loop: `if key not in result` a new
      group with count 0 goes last; then the key's count goes up by one. */
  function Bump(gs: seq<Group>, k: Value): (r: seq<Group>)
  {
    match FindGroup(gs, k)
    case Some(i) => gs[i := (k, gs[i].1 + 1)]
    case None => gs + [(k, 1)]
  }

  /** The groups the loop has built after the records `rs`, in dict order. */
  function Groups(rs: seq<Record>, field: string): (gs: seq<Group>)
    ensures |gs| <= |rs| && (gs == [] <==> rs == [])
    decreases |rs|
  {
    if rs == [] then [] else Bump(Groups(rs[..|rs| - 1], field), GroupKey(rs[|rs| - 1], field))
  }

  /** The records `{_id: key, count: n}` that `list(result.values())` yields. */
  function GroupRecords(gs: seq<Group>): (r: seq<Record>)
    ensures |r| == |gs|
    ensures forall i :: 0 <= i < |gs| ==> r[i] == map["_id" := gs[i].0, "count" := Int(gs[i].1)]
  {
    if gs == [] then [] else GroupRecords(gs[..|gs| - 1]) + [map["_id" := gs[|gs| - 1].0, "count" := Int(gs[|gs| - 1].1)]]
  }

  // ---------------------------------------------------------------------------
  // What the groups mean.

  /** How many records of `rs` have key `k`. */
  function Occurrences(rs: seq<Record>, field: string, k: Value): nat
    decreases |rs|
  {
    if rs == [] then 0
    else Occurrences(rs[..|rs| - 1], field, k) + (if GroupKey(rs[|rs| - 1], field) == k then 1 else 0)
  }

  /** The position of the first record of `rs` with key `k`, or `|rs|` if none has it. */
  function FirstIndex(rs: seq<Record>, field: string, k: Value): (p: nat)
    ensures p <= |rs|
    decreases |rs|
  {
    if rs == [] then 0
    else
      var p := FirstIndex(rs[..|rs| - 1], field, k);
      if p < |rs| - 1 then p else if GroupKey(rs[|rs| - 1], field) == k then |rs| - 1 else |rs|
  }

  predicate DistinctKeys(gs: seq<Group>)
  {
    forall i, j :: 0 <= i < j < |gs| ==> gs[i].0 != gs[j].0
  }

  function SumCounts(gs: seq<Group>): nat
  {
    if gs == [] then 0 else SumCounts(gs[..|gs| - 1]) + gs[|gs| - 1].1
  }

  lemma {:induction false} SumCountsBump(gs: seq<Group>, k: Value)
    ensures SumCounts(Bump(gs, k)) == SumCounts(gs) + 1
  {
    match FindGroup(gs, k)
    case None =>
      assert Bump(gs, k)[..|gs|] == gs;
    case Some(i) =>
      if i == |gs| - 1 {
        assert Bump(gs, k)[..|gs| - 1] == gs[..|gs| - 1];
      } else {
        var pre := gs[..|gs| - 1];
        SumCountsBump(pre, k);
        assert FindGroup(gs, k) == FindGroup(pre, k);
        assert Bump(gs, k)[..|gs| - 1] == Bump(pre, k);
      }
  }

  /** The groups `gs` describe the records `rs`: one group per key, each
      counting every record of its key, none for a key no record has, and
      counts adding up to the number of records. */
  ghost predicate GroupsDescribe(rs: seq<Record>, field: string, gs: seq<Group>)
  {
    && DistinctKeys(gs)
    && (forall i :: 0 <= i < |gs| ==> gs[i].1 == Occurrences(rs, field, gs[i].0) && gs[i].1 > 0)
    && (forall k :: FindGroup(gs, k).None? ==> Occurrences(rs, field, k) == 0)
    && SumCounts(gs) == |rs|
  }

  /** A record whose key already has a group adds one to that group. */
  lemma BumpExisting(rs: seq<Record>, field: string, i: nat)
    requires rs != []
    requires GroupsDescribe(rs[..|rs| - 1], field, Groups(rs[..|rs| - 1], field))
    requires FindGroup(Groups(rs[..|rs| - 1], field), GroupKey(rs[|rs| - 1], field)) == Some(i)
    ensures GroupsDescribe(rs, field, Groups(rs, field))
  {
    var k := GroupKey(rs[|rs| - 1], field);
    var gs := Groups(rs[..|rs| - 1], field);
    var gs' := Groups(rs, field);
    assert gs' == gs[i := (k, gs[i].1 + 1)];
    SumCountsBump(gs, k);
    assert |gs'| == |gs| && forall j :: 0 <= j < |gs| ==> gs'[j].0 == gs[j].0;
    assert DistinctKeys(gs');
    forall j | 0 <= j < |gs'| ensures gs'[j].1 == Occurrences(rs, field, gs'[j].0) && gs'[j].1 > 0 {
      if j != i { assert gs[j].0 != k; }
    }
    forall w | FindGroup(gs', w).None? ensures Occurrences(rs, field, w) == 0 {
      assert gs'[i].0 == k;
    }
  }

  /** A record with a new key opens a group of one at the end. */
  lemma BumpNew(rs: seq<Record>, field: string)
    requires rs != []
    requires GroupsDescribe(rs[..|rs| - 1], field, Groups(rs[..|rs| - 1], field))
    requires FindGroup(Groups(rs[..|rs| - 1], field), GroupKey(rs[|rs| - 1], field)).None?
    ensures GroupsDescribe(rs, field, Groups(rs, field))
  {
    var k := GroupKey(rs[|rs| - 1], field);
    var gs := Groups(rs[..|rs| - 1], field);
    var gs' := Groups(rs, field);
    assert gs' == gs + [(k, 1)];
    SumCountsBump(gs, k);
    assert gs'[..|gs|] == gs && gs'[|gs|] == (k, 1);
    forall j | 0 <= j < |gs'| ensures gs'[j].1 == Occurrences(rs, field, gs'[j].0) && gs'[j].1 > 0 {
      if j < |gs| { assert gs[j] == gs'[j] && gs[j].0 != k; }
    }
    forall w | FindGroup(gs', w).None? ensures Occurrences(rs, field, w) == 0 {
      assert gs'[|gs|].0 == k;
    }
  }

  /** The grouping loop keeps one group per key, counts every record of its key
      and nothing else, has no group for a key no record has, and its counts
      add up to the number of records. */
  lemma {:induction false} GroupsMeaning(rs: seq<Record>, field: string)
    ensures var gs := Groups(rs, field);
      && DistinctKeys(gs)
      && (forall i :: 0 <= i < |gs| ==> gs[i].1 == Occurrences(rs, field, gs[i].0) && gs[i].1 > 0)
      && (forall k :: FindGroup(gs, k).None? ==> Occurrences(rs, field, k) == 0)
      && SumCounts(gs) == |rs|
    decreases |rs|
  {
    if rs != [] {
      var pre := rs[..|rs| - 1];
      GroupsMeaning(pre, field);
      match FindGroup(Groups(pre, field), GroupKey(rs[|rs| - 1], field))
      case Some(i) => BumpExisting(rs, field, i);
      case None => BumpNew(rs, field);
    }
  }

  /** A key has a group exactly when some record has that key. */
  lemma GroupsCover(rs: seq<Record>, field: string, k: Value)
    ensures FindGroup(Groups(rs, field), k).Some? <==> Occurrences(rs, field, k) > 0
  {
    GroupsMeaning(rs, field);
  }

  lemma {:induction false} FirstIndexOfPresent(rs: seq<Record>, field: string, k: Value)
    ensures FirstIndex(rs, field, k) < |rs| <==> Occurrences(rs, field, k) > 0
    decreases |rs|
  {
    if rs != [] { FirstIndexOfPresent(rs[..|rs| - 1], field, k); }
  }

  /** Bumping keeps every existing key in its place; a new key goes last. */
  lemma BumpKeys(gs: seq<Group>, k: Value)
    ensures FindGroup(gs, k).Some? ==> |Bump(gs, k)| == |gs|
    ensures FindGroup(gs, k).None? ==> |Bump(gs, k)| == |gs| + 1 && Bump(gs, k)[|gs|].0 == k
    ensures forall j :: 0 <= j < |gs| ==> Bump(gs, k)[j].0 == gs[j].0
  {
  }

  /** A key that occurs among the earlier records keeps its first position. */
  lemma FirstIndexExtend(rs: seq<Record>, field: string, k: Value)
    requires rs != [] && FirstIndex(rs[..|rs| - 1], field, k) < |rs| - 1
    ensures FirstIndex(rs, field, k) == FirstIndex(rs[..|rs| - 1], field, k)
  {
  }

  /** Groups come in the order in which their keys first occur. */
  lemma {:induction false} GroupsInFirstOccurrenceOrder(rs: seq<Record>, field: string)
    ensures var gs := Groups(rs, field);
      forall i :: 0 <= i < |gs| ==> FirstIndex(rs, field, gs[i].0) < |rs|
    ensures var gs := Groups(rs, field);
      forall i, j :: 0 <= i < j < |gs| ==> FirstIndex(rs, field, gs[i].0) < FirstIndex(rs, field, gs[j].0)
    decreases |rs|
  {
    if rs != [] {
      var pre := rs[..|rs| - 1];
      var k := GroupKey(rs[|rs| - 1], field);
      var gs := Groups(pre, field);
      var gs' := Groups(rs, field);
      assert gs' == Bump(gs, k);
      GroupsInFirstOccurrenceOrder(pre, field);
      GroupsMeaning(pre, field);
      BumpKeys(gs, k);
      forall j | 0 <= j < |gs|
        ensures FirstIndex(rs, field, gs'[j].0) == FirstIndex(pre, field, gs[j].0) < |pre|
      {
        FirstIndexOfPresent(pre, field, gs[j].0);
        FirstIndexExtend(rs, field, gs[j].0);
      }
      if FindGroup(gs, k).None? {
        GroupsCover(pre, field, k);
        FirstIndexOfPresent(pre, field, k);
        assert FirstIndex(rs, field, k) == |pre|;
      }
    }
  }

  /** The loop of a `$group` stage. */
  method GroupStage(rs: seq<Record>, field: string) returns (out: seq<Record>)
    ensures out == GroupRecords(Groups(rs, field))
  {
    var gs: seq<Group> := [];
    var i := 0;
    while i < |rs|
      invariant 0 <= i <= |rs|
      invariant gs == Groups(rs[..i], field)
    {
      assert rs[..i + 1][..i] == rs[..i];
      var k := GroupKey(rs[i], field);
      var at := FindGroup(gs, k);
      if at.Some? {
        gs := gs[at.value := (k, gs[at.value].1 + 1)];
      } else {
        gs := gs + [(k, 1)];
      }
      i := i + 1;
    }
    assert rs[..|rs|] == rs;
    out := GroupRecords(gs);
  }

  // ---------------------------------------------------------------------------
  // The pipeline.

  /** `aggregate` on an existing table: the stages applied in order to the
      working list; a `$match` that orders values of different kinds raises. */
  function RunPipeline(rs: seq<Record>, stages: seq<Stage>): (r: Result<seq<Record>>)
    ensures r.Err? ==> r.error == TypeMismatch
    decreases |stages|
  {
    if stages == [] then Ok(rs)
    else
      var s := stages[0];
      if s.group.Some? then RunPipeline(GroupRecords(Groups(rs, s.group.value)), stages[1..])
      else if s.filter.Some? then
        match Filter(rs, s.filter.value, true)
        case Err(e) => Err(e)
        case Ok(kept) => RunPipeline(kept, stages[1..])
      else RunPipeline(rs, stages[1..])
  }

  /** Running `p1 + p2` is running `p1`, then `p2` on its output. */
  lemma {:induction false} RunPipelineAppend(rs: seq<Record>, p1: seq<Stage>, p2: seq<Stage>)
    ensures RunPipeline(rs, p1 + p2) ==
      match RunPipeline(rs, p1)
      case Err(e) => Err(e)
      case Ok(mid) => RunPipeline(mid, p2)
    decreases |p1|
  {
    if p1 == [] {
      assert p1 + p2 == p2;
    } else {
      assert (p1 + p2)[0] == p1[0] && (p1 + p2)[1..] == p1[1..] + p2;
      var s := p1[0];
      if s.group.Some? {
        RunPipelineAppend(GroupRecords(Groups(rs, s.group.value)), p1[1..], p2);
      } else if s.filter.Some? {
        match Filter(rs, s.filter.value, true)
        case Err(e) =>
        case Ok(kept) => RunPipelineAppend(kept, p1[1..], p2);
      } else {
        RunPipelineAppend(rs, p1[1..], p2);
      }
    }
  }

  /** A single `$match` stage keeps exactly the matching records, in order. */
  lemma MatchStage(rs: seq<Record>, cond: Condition)
    ensures RunPipeline(rs, [Stage(None, Some(cond))]).Ok? ==>
      RunPipeline(rs, [Stage(None, Some(cond))]).value == Kept(rs, cond, true)
  {
  }

  /** A single `$group` stage yields one record per distinct key whose counts add up. */
  lemma GroupStageCounts(rs: seq<Record>, field: string)
    ensures var r := RunPipeline(rs, [Stage(Some(field), None)]);
      r == Ok(GroupRecords(Groups(rs, field))) && SumCounts(Groups(rs, field)) == |rs|
  {
    GroupsMeaning(rs, field);
  }

  /** A stage with neither `$group` nor `$match` changes nothing. */
  lemma EmptyStageIgnored(rs: seq<Record>, stages: seq<Stage>)
    ensures RunPipeline(rs, [Stage(None, None)] + stages) == RunPipeline(rs, stages)
  {
    assert ([Stage(None, None)] + stages)[1..] == stages;
  }

  /** Grouping `{dept: "eng"}`, `{dept: "hr"}`, `{dept: "eng"}`, `{}` by dept
      gives eng: 2, hr: 1 and "null": 1, in that order. */
  lemma GroupExample()
    ensures
      var rs: seq<Record> := [map["dept" := Str("eng")], map["dept" := Str("hr")], map["dept" := Str("eng")], map[]];
      Groups(rs, "dept") == [(Str("eng"), 2), (Str("hr"), 1), (Str("null"), 1)]
  {
    var a, b: Record := map["dept" := Str("eng")], map["dept" := Str("hr")];
    var e: Record := map[];
    var eng, hr, nul := Str("eng"), Str("hr"), Str("null");
    assert GroupKey(a, "dept") == eng && GroupKey(b, "dept") == hr && GroupKey(e, "dept") == nul;
    var rs := [a, b, a, e];
    assert rs[..3] == [a, b, a] && [a, b, a][..2] == [a, b] && [a, b][..1] == [a] && [a][..0] == [];
    var g1 := [(eng, 1)];
    assert FindGroup([], eng).None?;
    assert Groups([a], "dept") == Bump([], eng) == g1;
    assert FindGroup(g1, hr).None? by { assert g1[..0] == []; }
    var g2 := [(eng, 1), (hr, 1)];
    assert Groups([a, b], "dept") == Bump(g1, hr) == g2;
    assert FindGroup(g2, eng) == Some(0) by { assert g2[..1] == g1; }
    var g3 := [(eng, 2), (hr, 1)];
    assert Groups([a, b, a], "dept") == Bump(g2, eng) == g3;
    var g3a: seq<Group> := [(eng, 2)];
    assert FindGroup(g3, nul).None? by { assert g3[..1] == g3a && g3a[..0] == []; }
    assert Groups(rs, "dept") == Bump(g3, nul);
  }
}
