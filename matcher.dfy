/**
 * The condition matcher (`_match_condition`) and what select, count, delete and
 * the `$match` stage build on it: filtering a table in order, and Python's
 * slicing for `offset`/`limit` pagination.
 */
module Matcher {
  import opened Values

  /** One field's test: a literal (equality) or an operator map holding any of
      `$gt`, `$lt`, `$gte`, `$lte` and `$like`. */
  datatype Clause =
    | Literal(v: Value)
    | Ops(gt: Option<Value>, lt: Option<Value>, gte: Option<Value>, lte: Option<Value>, like: Option<string>)

  /** A condition: field name to clause, in the order the caller wrote them. */
  type Condition = seq<(string, Clause)>

  /** The four ordering operators. */
  datatype Order = Gt | Lt | Gte | Lte

  /** Whether a record value that compares as `c` (-1, 0, 1) to the bound passes. */
  predicate Accepts(op: Order, c: int)
  {
    match op
    case Gt => c > 0
    case Lt => c < 0
    case Gte => c >= 0
    case Lte => c <= 0
  }

  // ---------------------------------------------------------------------------
  // The declarative meaning of a condition.

  /** A present bound is passed when it orders with the value and the order is right. */
  ghost predicate Passes(rv: Value, bound: Option<Value>, op: Order)
  {
    bound.Some? ==> Compare(rv, bound.value).Some? && Accepts(op, Compare(rv, bound.value).value)
  }

  /** The case-insensitive substring test of `$like`. */
  predicate Like(rv: Value, pattern: string)
  {
    Contains(Lower(PyStr(rv)), Lower(pattern))
  }

  /** What one clause asks of a record: a literal needs the field present and
      equal; operators test only a field that is present. */
  ghost predicate Holds(rec: Record, key: string, clause: Clause)
  {
    match clause
    case Literal(v) => key in rec && rec[key] == v
    case Ops(gt, lt, gte, lte, like) =>
      key in rec ==>
        Passes(rec[key], gt, Gt) && Passes(rec[key], lt, Lt) &&
        Passes(rec[key], gte, Gte) && Passes(rec[key], lte, Lte) &&
        (like.Some? ==> Like(rec[key], like.value))
  }

  /** A record satisfies a condition when every clause holds. */
  ghost predicate Satisfies(rec: Record, cond: Condition)
  {
    forall i :: 0 <= i < |cond| ==> Holds(rec, cond[i].0, cond[i].1)
  }

  /** Every bound the clause would test against a present field orders with it. */
  ghost predicate Orderable(rec: Record, key: string, clause: Clause)
  {
    clause.Ops? && key in rec ==>
      (clause.gt.Some? ==> Compare(rec[key], clause.gt.value).Some?) &&
      (clause.lt.Some? ==> Compare(rec[key], clause.lt.value).Some?) &&
      (clause.gte.Some? ==> Compare(rec[key], clause.gte.value).Some?) &&
      (clause.lte.Some? ==> Compare(rec[key], clause.lte.value).Some?)
  }

  ghost predicate Comparable(rec: Record, cond: Condition)
  {
    forall i :: 0 <= i < |cond| ==> Orderable(rec, cond[i].0, cond[i].1)
  }

  // ---------------------------------------------------------------------------
  // The executable matcher, testing in the source's order and stopping at the
  // first failing test.

  function CheckBound(rv: Value, bound: Option<Value>, op: Order): Result<bool>
  {
    if bound.None? then Ok(true)
    else match Compare(rv, bound.value)
      case None => Err(TypeMismatch)
      case Some(c) => Ok(Accepts(op, c))
  }

  /** The operator tests on a present field, in the order $gt, $lt, $gte, $lte, $like. */
  /** A present bound that does not order with the field's value. */
  predicate Unorderable(rv: Value, bound: Option<Value>)
  {
    bound.Some? && Compare(rv, bound.value).None?
  }

  function CheckOps(rv: Value, clause: Clause): (r: Result<bool>)
    requires clause.Ops?
    ensures r.Err? ==> r.error == TypeMismatch
    ensures r.Err? ==>
      Unorderable(rv, clause.gt) || Unorderable(rv, clause.lt) || Unorderable(rv, clause.gte) || Unorderable(rv, clause.lte)
    ensures r == Ok(true) ==>
      && Passes(rv, clause.gt, Gt) && Passes(rv, clause.lt, Lt) && Passes(rv, clause.gte, Gte) && Passes(rv, clause.lte, Lte)
      && (clause.like.None? || Like(rv, clause.like.value))
  {
    var a := CheckBound(rv, clause.gt, Gt);
    if a != Ok(true) then a else
    var b := CheckBound(rv, clause.lt, Lt);
    if b != Ok(true) then b else
    var c := CheckBound(rv, clause.gte, Gte);
    if c != Ok(true) then c else
    var d := CheckBound(rv, clause.lte, Lte);
    if d != Ok(true) then d else
    Ok(clause.like.None? || Like(rv, clause.like.value))
  }

  function MatchClause(rec: Record, key: string, clause: Clause): (r: Result<bool>)
    ensures r.Err? ==> r.error == TypeMismatch && clause.Ops? && key in rec
    ensures clause.Ops? && key !in rec ==> r == Ok(true)
    ensures clause.Literal? ==> r.Ok? && (r.value <==> key in rec && rec[key] == clause.v)
  {
    match clause
    case Literal(v) => Ok(key in rec && rec[key] == v)
    case Ops(_, _, _, _, _) => if key !in rec then Ok(true) else CheckOps(rec[key], clause)
  }

  /** One clause's verdict agrees with its declarative meaning. */
  lemma MatchClauseMeaning(rec: Record, key: string, clause: Clause)
    ensures MatchClause(rec, key, clause).Err? ==> MatchClause(rec, key, clause).error == TypeMismatch
    ensures MatchClause(rec, key, clause).Ok? ==> (MatchClause(rec, key, clause).value <==> Holds(rec, key, clause))
    ensures Orderable(rec, key, clause) ==> MatchClause(rec, key, clause).Ok?
  {
  }

  /** `_match_condition`: every clause must hold (AND), a test that orders
      values of different kinds raises, and a missing field fails an equality
      test but passes the operator tests. */
  function Match(rec: Record, cond: Condition): (r: Result<bool>)
    ensures r.Err? ==> r.error == TypeMismatch
    ensures r.Ok? ==> (r.value <==> Satisfies(rec, cond))
    ensures Comparable(rec, cond) ==> r.Ok?
  {
    if cond == [] then Ok(true)
    else
      MatchClauseMeaning(rec, cond[0].0, cond[0].1);
      var h := MatchClause(rec, cond[0].0, cond[0].1);
      if h != Ok(true) then h
      else
        var r := Match(rec, cond[1..]);
        assert Satisfies(rec, cond) <==> Satisfies(rec, cond[1..]) by {
          if Satisfies(rec, cond[1..]) {
            forall i | 0 <= i < |cond| ensures Holds(rec, cond[i].0, cond[i].1) {
              if i > 0 { assert cond[i] == cond[1..][i - 1]; }
            }
          }
        }
        r
  }

  /** Conditions are conjunctions: matching `c1 + c2` is matching `c1`, then,
      only if it passed, `c2`. */
  lemma {:induction false} MatchAppend(rec: Record, c1: Condition, c2: Condition)
    ensures Match(rec, c1 + c2) == if Match(rec, c1) == Ok(true) then Match(rec, c2) else Match(rec, c1)
  {
    if c1 != [] {
      assert (c1 + c2)[0] == c1[0];
      assert (c1 + c2)[1..] == c1[1..] + c2;
      MatchAppend(rec, c1[1..], c2);
    } else {
      assert c1 + c2 == c2;
    }
  }

  /** An equality test fails on a record without the field. */
  lemma EqualityNeedsField(rec: Record, key: string, v: Value)
    requires key !in rec
    ensures Match(rec, [(key, Literal(v))]) == Ok(false)
  {
  }

  /** Operator tests pass on a record without the field, whatever the bounds. */
  lemma OperatorsIgnoreMissingField(rec: Record, key: string, clause: Clause)
    requires key !in rec && clause.Ops?
    ensures Match(rec, [(key, clause)]) == Ok(true)
  {
  }

  /** `$like` ignores ASCII case on both sides. */
  lemma LikeIgnoresCase(rv: Value, pattern: string)
    ensures Like(rv, pattern) == Like(rv, Lower(pattern))
    ensures rv.Str? ==> Like(rv, pattern) == Like(Str(Lower(rv.s)), pattern)
  {
    LowerIdempotent(pattern);
    if rv.Str? { LowerIdempotent(rv.s); }
  }

  /** A condition made only of literals never raises. */
  lemma LiteralsNeverRaise(rec: Record, cond: Condition)
    requires forall i :: 0 <= i < |cond| ==> cond[i].1.Literal?
    ensures Match(rec, cond).Ok?
  {
  }

  // ---------------------------------------------------------------------------
  // Filtering a table.

  /** The records of `rs`, in order, whose satisfaction of `cond` equals `wanted`. */
  ghost function Kept(rs: seq<Record>, cond: Condition, wanted: bool): seq<Record>
    decreases |rs|
  {
    if rs == [] then []
    else
      var last := rs[|rs| - 1];
      Kept(rs[..|rs| - 1], cond, wanted) + (if Satisfies(last, cond) == wanted then [last] else [])
  }

  /** `[r for r in rs if match(r, cond) == wanted]`: tests the records in order
      and raises as soon as one test raises. */
  function Filter(rs: seq<Record>, cond: Condition, wanted: bool): (r: Result<seq<Record>>)
    ensures r.Ok? ==> r.value == Kept(rs, cond, wanted)
    ensures r.Err? ==> r.error == TypeMismatch
    ensures (forall k :: 0 <= k < |rs| ==> Comparable(rs[k], cond)) ==> r.Ok?
    decreases |rs|
  {
    if rs == [] then Ok([])
    else
      var last := rs[|rs| - 1];
      match Filter(rs[..|rs| - 1], cond, wanted)
      case Err(e) => Err(e)
      case Ok(prefix) =>
        match Match(last, cond)
        case Err(e) => Err(e)
        case Ok(b) => Ok(if b == wanted then prefix + [last] else prefix)
  }

  /** A record is kept exactly when it is in the table and its verdict is the wanted one. */
  lemma {:induction false} KeptMembers(rs: seq<Record>, cond: Condition, wanted: bool, x: Record)
    ensures x in Kept(rs, cond, wanted) <==> x in rs && Satisfies(x, cond) == wanted
    decreases |rs|
  {
    if rs != [] {
      KeptMembers(rs[..|rs| - 1], cond, wanted, x);
      assert rs == rs[..|rs| - 1] + [rs[|rs| - 1]];
    }
  }

  /** Every record goes to exactly one side: matching or not matching. */
  lemma {:induction false} KeptPartition(rs: seq<Record>, cond: Condition)
    ensures |Kept(rs, cond, true)| + |Kept(rs, cond, false)| == |rs|
    decreases |rs|
  {
    if rs != [] { KeptPartition(rs[..|rs| - 1], cond); }
  }

  /** When filtering drops nothing, it returns the table itself. */
  lemma {:induction false} KeptAll(rs: seq<Record>, cond: Condition, wanted: bool)
    requires |Kept(rs, cond, wanted)| == |rs|
    ensures Kept(rs, cond, wanted) == rs
    decreases |rs|
  {
    if rs != [] {
      var pre := rs[..|rs| - 1];
      KeptPartition(pre, cond);
      KeptAll(pre, cond, wanted);
      assert rs == pre + [rs[|rs| - 1]];
    }
  }

  /** The empty condition keeps every record. */
  lemma {:induction false} KeptEmptyCondition(rs: seq<Record>)
    ensures Kept(rs, [], true) == rs
    decreases |rs|
  {
    if rs != [] {
      KeptEmptyCondition(rs[..|rs| - 1]);
      assert rs == rs[..|rs| - 1] + [rs[|rs| - 1]];
    }
  }

  /** Filtering distributes over concatenation. */
  lemma {:induction false} KeptAppend(a: seq<Record>, b: seq<Record>, cond: Condition, wanted: bool)
    ensures Kept(a + b, cond, wanted) == Kept(a, cond, wanted) + Kept(b, cond, wanted)
    decreases |b|
  {
    if b == [] {
      assert a + b == a;
    } else {
      assert (a + b)[..|a + b| - 1] == a + b[..|b| - 1];
      KeptAppend(a, b[..|b| - 1], cond, wanted);
    }
  }

  // ---------------------------------------------------------------------------
  // Pagination.

  /** A Python slice bound resolved against a length: negatives count from the end. */
  function Clamp(i: int, n: nat): (r: nat)
    ensures r <= n
  {
    if i < 0 then (if i + n < 0 then 0 else i + n) else if i > n then n else i
  }

  /** Python's `s[start:stop]`, a missing `stop` meaning the end. */
  function PySlice<T>(s: seq<T>, start: int, stop: Option<int>): (r: seq<T>)
    ensures exists lo, hi :: 0 <= lo <= hi <= |s| && r == s[lo..hi]
  {
    var lo := Clamp(start, |s|);
    var hi := if stop.None? then |s| else Clamp(stop.value, |s|);
    if lo <= hi then s[lo..hi] else s[0..0]
  }

  /** `result[offset:offset + limit if limit else None]`: a limit of None or 0 means no limit. */
  function Page<T>(s: seq<T>, limit: Option<int>, offset: int): (r: seq<T>)
    ensures |r| <= |s| && forall x :: x in r ==> x in s
    ensures offset >= 0 && limit.Some? && limit.value > 0 ==> |r| <= limit.value
  {
    PySlice(s, offset, if limit.None? || limit.value == 0 then None else Some(offset + limit.value))
  }

  /** For a non-negative offset and limit, a page is the window
      `[offset, offset + limit)` cut to the sequence; no limit runs to the end. */
  lemma PageWindow<T>(s: seq<T>, limit: Option<int>, offset: int)
    requires offset >= 0 && (limit.Some? ==> limit.value >= 0)
    ensures var lo := if offset < |s| then offset else |s|;
      limit.None? || limit.value == 0 ==> Page(s, limit, offset) == s[lo..]
    ensures var lo := if offset < |s| then offset else |s|;
      limit.Some? && limit.value > 0 ==>
        var hi := if offset + limit.value < |s| then offset + limit.value else |s|;
        Page(s, limit, offset) == s[lo..hi] && |Page(s, limit, offset)| <= limit.value
  {
  }
}
