/**
 * The prefix parser of `execute_sql_like`: the query is stripped and
 * upper-cased as a whole, so the table name of `SELECT COUNT(*) FROM t`
 * comes out upper-cased too.
 */
module SqlLike {
  import opened Values

  /** `str.isspace()` on the ASCII range: space, \t, \n, \v, \f, \r and the
      separators \x1c to \x1f. */
  predicate IsSpace(c: char)
  {
    c == ' ' || (9 <= c as int <= 13) || (28 <= c as int <= 31)
  }

  /** How many white-space characters `s` starts with. */
  function SpanLeft(s: string): (n: nat)
    ensures n <= |s|
    ensures forall k :: 0 <= k < n ==> IsSpace(s[k])
    ensures n < |s| ==> !IsSpace(s[n])
  {
    if s != [] && IsSpace(s[0]) then 1 + SpanLeft(s[1..]) else 0
  }

  /** How many white-space characters `s` ends with. */
  function SpanRight(s: string): (n: nat)
    ensures n <= |s|
    ensures forall k :: |s| - n <= k < |s| ==> IsSpace(s[k])
    ensures n < |s| ==> !IsSpace(s[|s| - 1 - n])
  {
    if s != [] && IsSpace(s[|s| - 1]) then 1 + SpanRight(s[..|s| - 1]) else 0
  }

  /** `s.strip()`: `s` without its leading and trailing white space. */
  function Strip(s: string): (r: string)
    ensures |r| <= |s| && forall c :: c in r ==> c in s
    ensures r != [] ==> !IsSpace(r[0]) && !IsSpace(r[|r| - 1])
    ensures (forall k :: 0 <= k < |s| ==> !IsSpace(s[k])) ==> r == s
  {
    var lo := SpanLeft(s);
    var hi := |s| - SpanRight(s[lo..]);
    s[lo..hi]
  }

  function UpperChar(c: char): char
  {
    if 'a' <= c <= 'z' then (c as int - 32) as char else c
  }

  /** ASCII upper-casing; Python's `str.upper()` on the ASCII range. */
  function Upper(s: string): (r: string)
    ensures |r| == |s|
    ensures forall k :: 0 <= k < |s| ==> r[k] == UpperChar(s[k])
  {
    if s == [] then [] else [UpperChar(s[0])] + Upper(s[1..])
  }

  predicate StartsWith(s: string, p: string)
  {
    |p| <= |s| && s[..|p|] == p
  }

  /** What follows the first occurrence of `p` in `s`, if `p` occurs. */
  function AfterFirst(s: string, p: string): (r: Option<string>)
    ensures r.Some? ==> |r.value| <= |s| && r.value == s[|s| - |r.value|..]
    decreases |s|
  {
    if StartsWith(s, p) then Some(s[|p|..])
    else if s == [] then None
    else AfterFirst(s[1..], p)
  }

  /** What comes before the first occurrence of `p` in `s` (all of `s` if it does not occur). */
  function UpTo(s: string, p: string): (r: string)
    ensures |r| <= |s| && r == s[..|r|]
    decreases |s|
  {
    if StartsWith(s, p) || s == [] then [] else [s[0]] + UpTo(s[1..], p)
  }

  /** `s.split(sep)[1]`: the text between the first and the second occurrence
      of `sep` (or the end); None where Python raises IndexError. */
  function SplitSecond(s: string, sep: string): Option<string>
  {
    match AfterFirst(s, sep)
    case None => None
    case Some(rest) => Some(UpTo(rest, sep))
  }

  const CountPrefix := "SELECT COUNT(*) FROM"
  const ShowPrefix := "SHOW TABLES"

  /** The statements `execute_sql_like` accepts. */
  datatype Command = CountRows(table: string) | ShowTables | Unsupported(query: string)

  /** The parse of `execute_sql_like`: the stripped, upper-cased query is a
      row count of the table between FROM and the next FROM, a table listing,
      or unsupported. */
  function Parse(query: string): (c: Command)
    ensures var q := Upper(Strip(query));
      && (c.CountRows? <==> StartsWith(q, CountPrefix))
      && (c.ShowTables? <==> !StartsWith(q, CountPrefix) && StartsWith(q, ShowPrefix))
      && (c.CountRows? ==> c.table == Strip(UpTo(q[|CountPrefix|..], "FROM")))
      && (c.Unsupported? ==> c.query == q)
  {
    var q := Upper(Strip(query));
    if StartsWith(q, CountPrefix) then
      CountQueryTable(q);
      match SplitSecond(q, "FROM")
      case Some(piece) => CountRows(Strip(piece))
      case None => Unsupported(q)
    else if StartsWith(q, ShowPrefix) then ShowTables
    else Unsupported(q)
  }

  lemma {:induction false} AfterFirstSkip(s: string, p: string, k: nat)
    requires k <= |s|
    requires forall j :: 0 <= j < k ==> !StartsWith(s[j..], p)
    ensures AfterFirst(s, p) == AfterFirst(s[k..], p)
    decreases k
  {
    if k > 0 {
      assert !StartsWith(s[0..], p) && s[0..] == s;
      assert forall j :: 0 <= j < k - 1 ==> s[1..][j..] == s[j + 1..];
      AfterFirstSkip(s[1..], p, k - 1);
      assert s[1..][k - 1..] == s[k..];
    }
  }

  /** In a count query the first FROM is the one of the prefix, so the table
      name is what follows it, up to any further FROM. */
  lemma CountQueryTable(q: string)
    requires StartsWith(q, CountPrefix)
    ensures SplitSecond(q, "FROM") == Some(UpTo(q[|CountPrefix|..], "FROM"))
  {
    assert forall j :: 0 <= j < 16 ==> CountPrefix[j] != 'F';
    forall j | 0 <= j < 16 ensures !StartsWith(q[j..], "FROM") {
      assert q[j..][0] == q[j] == CountPrefix[j];
    }
    AfterFirstSkip(q, "FROM", 16);
    assert StartsWith(q[16..], "FROM") by { assert q[16..][..4] == CountPrefix[16..]; }
    assert q[16..][4..] == q[20..];
  }

  /** The text holds no lower-case ASCII letter. */
  predicate NoLowerCase(s: string)
  {
    forall k :: 0 <= k < |s| ==> !('a' <= s[k] <= 'z')
  }

  /** Every character of `r` occurs in `s`, which holds no lower-case letter. */
  lemma NoLowerCaseKept(s: string, r: string)
    requires NoLowerCase(s) && forall c :: c in r ==> c in s
    ensures NoLowerCase(r)
  {
    forall k | 0 <= k < |r| ensures !('a' <= r[k] <= 'z') {
      assert r[k] in s;
    }
  }

  /** Every count query parses as a count, and the table name it yields holds
      no lower-case ASCII letter: a table whose name has one is never counted. */
  lemma CountedTableIsUpperCase(query: string)
    requires StartsWith(Upper(Strip(query)), CountPrefix)
    ensures Parse(query).CountRows?
    ensures NoLowerCase(Parse(query).table)
  {
    var q := Upper(Strip(query));
    var rest := q[|CountPrefix|..];
    var u := UpTo(rest, "FROM");
    assert NoLowerCase(q);
    NoLowerCaseKept(q, rest);
    NoLowerCaseKept(rest, u);
    NoLowerCaseKept(u, Strip(u));
  }
}
