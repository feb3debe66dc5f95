/**
 * The configuration store (`ADBConfig`): a tree of settings addressed by
 * dotted keys such as `database.path`, with built-in defaults, a recursive
 * merge of a configuration file over them, lookups that fall back to a
 * default, assignments that create missing levels, and a validity check of
 * three settings.
 */
module Config {
  import opened Values

  /** A setting: a plain value or a nested table of settings. */
  datatype Conf = Leaf(v: Value) | Node(entries: map<string, Conf>)

  // ---------------------------------------------------------------------------
  // Dotted keys.

  /** `key.split('.')`: the pieces between the dots, empty pieces included. */
  function SplitDots(key: string): (parts: seq<string>)
    ensures |parts| >= 1
    ensures forall i :: 0 <= i < |parts| ==> '.' !in parts[i]
    decreases |key|
  {
    if key == [] then [""]
    else if key[0] == '.' then [""] + SplitDots(key[1..])
    else
      var rest := SplitDots(key[1..]);
      [[key[0]] + rest[0]] + rest[1..]
  }

  /** `'.'.join(parts)`. */
  function JoinDots(parts: seq<string>): string
    requires |parts| >= 1
    decreases |parts|
  {
    if |parts| == 1 then parts[0] else parts[0] + "." + JoinDots(parts[1..])
  }

  /** Splitting at the dots loses nothing: joining the pieces gives the key back. */
  lemma {:induction false} SplitJoin(key: string)
    ensures JoinDots(SplitDots(key)) == key
    decreases |key|
  {
    if key != [] {
      SplitJoin(key[1..]);
      var rest := SplitDots(key[1..]);
      if key[0] == '.' {
        assert SplitDots(key)[1..] == rest;
        assert key == "." + key[1..];
      } else {
        var parts := SplitDots(key);
        assert parts[0] == [key[0]] + rest[0];
        if |rest| == 1 {
          assert key == [key[0]] + key[1..];
        } else {
          assert parts[1..] == rest[1..];
          assert key == [key[0]] + key[1..];
        }
      }
    }
  }

  /** Joining pieces without dots and splitting again gives the pieces back. */
  lemma {:induction false} JoinSplit(parts: seq<string>)
    requires |parts| >= 1
    requires forall i :: 0 <= i < |parts| ==> '.' !in parts[i]
    ensures SplitDots(JoinDots(parts)) == parts
    decreases |parts|
  {
    if |parts| == 1 {
      DotFree(parts[0]);
    } else {
      JoinSplit(parts[1..]);
      SplitAfterPiece(parts[0], JoinDots(parts[1..]));
      assert parts == [parts[0]] + parts[1..];
    }
  }

  /** A dot-free piece followed by a dot splits off as the first piece. */
  lemma {:induction false} SplitAfterPiece(piece: string, rest: string)
    requires '.' !in piece
    ensures SplitDots(piece + "." + rest) == [piece] + SplitDots(rest)
    decreases |piece|
  {
    if piece == [] {
      assert piece + "." + rest == "." + rest;
      assert ("." + rest)[1..] == rest;
    } else {
      assert piece[0] in piece;
      assert forall c :: c in piece[1..] ==> c in piece;
      SplitAfterPiece(piece[1..], rest);
      assert (piece + "." + rest)[1..] == piece[1..] + "." + rest;
      assert [piece[0]] + piece[1..] == piece;
    }
  }

  /** A key without dots is a single piece. */
  lemma {:induction false} DotFree(key: string)
    requires '.' !in key
    ensures SplitDots(key) == [key]
    decreases |key|
  {
    if key != [] {
      assert key[0] in key;
      assert forall c :: c in key[1..] ==> c in key;
      DotFree(key[1..]);
      assert key == [key[0]] + key[1..];
    }
  }

  // ---------------------------------------------------------------------------
  // Reading and writing along a path.

  /** One step of a walk: the entry `k` of a table reached so far. */
  function Child(o: Option<Conf>, k: string): Option<Conf>
  {
    if o.Some? && o.value.Node? && k in o.value.entries then Some(o.value.entries[k]) else None
  }

  /** The walk of `get`: each piece must name an entry of a table; None where
      `get` returns its default. */
  function Lookup(c: Conf, path: seq<string>): Option<Conf>
    decreases |path|
  {
    if path == [] then Some(c)
    else if c.Node? && path[0] in c.entries then Lookup(c.entries[path[0]], path[1..])
    else None
  }

  /** The walk read from the other end: a path reaches the entry its last piece
      names in the table its other pieces reach. */
  lemma {:induction false} LookupLastStep(c: Conf, path: seq<string>)
    requires path != []
    ensures Lookup(c, path) == Child(Lookup(c, path[..|path| - 1]), path[|path| - 1])
    decreases |path|
  {
    if |path| >= 2 && c.Node? && path[0] in c.entries {
      LookupLastStep(c.entries[path[0]], path[1..]);
      assert path[..|path| - 1][1..] == path[1..][..|path| - 2];
    }
  }

  /** The walk of `set`: every piece but the last names a table, missing ones
      created empty; the last piece gets the value. Err where Python raises
      TypeError because an existing setting on the way is not a table. */
  function SetPath(m: map<string, Conf>, path: seq<string>, v: Conf): (r: Result<map<string, Conf>>)
    requires |path| >= 1
    ensures r.Err? ==> r.error == TypeMismatch && |path| >= 2
    ensures r.Ok? ==> r.value.Keys == m.Keys + {path[0]}
    ensures r.Ok? ==> forall k :: k in m && k != path[0] ==> r.value[k] == m[k]
    decreases |path|
  {
    if |path| == 1 then Ok(m[path[0] := v])
    else
      var k := path[0];
      var below := if k in m then m[k] else Node(map[]);
      if below.Leaf? then Err(TypeMismatch)
      else
        match SetPath(below.entries, path[1..], v)
        case Err(e) => Err(e)
        case Ok(inner) => Ok(m[k := Node(inner)])
  }

  /** The setting reached by the first `i` pieces of `path` is a plain value,
      so the walk cannot go on below it. */
  predicate BlockedAt(m: map<string, Conf>, path: seq<string>, i: int)
  {
    0 < i < |path| && Lookup(Node(m), path[..i]).Some? && Lookup(Node(m), path[..i]).value.Leaf?
  }

  /** `set` fails exactly when an existing setting strictly above the target is a plain value. */
  lemma {:induction false} SetPathFails(m: map<string, Conf>, path: seq<string>, v: Conf)
    requires |path| >= 1
    ensures SetPath(m, path, v).Err? <==> exists i :: BlockedAt(m, path, i)
    ensures SetPath(m, path, v).Err? ==> SetPath(m, path, v).error == TypeMismatch
    decreases |path|
  {
    if |path| > 1 {
      var k := path[0];
      var below := if k in m then m[k] else Node(map[]);
      assert path[..1] == [k];
      if below.Node? {
        assert !BlockedAt(m, path, 1) by {
          assert Lookup(Node(m), path[..1]) == Lookup(Node(m), [k]);
          assert [k][1..] == [];
          if k in m {
            assert Lookup(Node(m), [k]) == Lookup(m[k], []) == Some(m[k]);
          }
        }
        SetPathFails(below.entries, path[1..], v);
        if exists i :: BlockedAt(below.entries, path[1..], i) {
          var i :| BlockedAt(below.entries, path[1..], i);
          assert path[..i + 1] == [k] + path[1..][..i];
          assert k in m by {
            if k !in m { EmptyBlocksNothing(path[1..], i); }
          }
          assert BlockedAt(m, path, i + 1);
        }
        if exists i :: BlockedAt(m, path, i) {
          var i :| BlockedAt(m, path, i);
          if i > 1 {
            assert path[..i] == [k] + path[1..][..i - 1];
            assert k in m;
            assert BlockedAt(below.entries, path[1..], i - 1);
          }
        }
      } else {
        assert BlockedAt(m, path, 1);
      }
    }
  }

  /** Nothing below a missing level is a plain value. */
  lemma EmptyBlocksNothing(path: seq<string>, i: int)
    ensures !BlockedAt(map[], path, i)
  {
    if 0 < i < |path| {
      assert path[..i][0] == path[0];
    }
  }

  /** After a successful `set`, `get` of the same key returns the value set. */
  lemma {:induction false} GetAfterSet(m: map<string, Conf>, path: seq<string>, v: Conf)
    requires |path| >= 1 && SetPath(m, path, v).Ok?
    ensures Lookup(Node(SetPath(m, path, v).value), path) == Some(v)
    decreases |path|
  {
    if |path| > 1 {
      var k := path[0];
      var below := if k in m then m[k] else Node(map[]);
      GetAfterSet(below.entries, path[1..], v);
    }
  }

  /** The two paths part ways: at some depth they name different entries. */
  predicate Diverge(p: seq<string>, q: seq<string>)
    decreases |p|
  {
    p != [] && q != [] && (p[0] != q[0] || Diverge(p[1..], q[1..]))
  }

  /** A successful `set` leaves every setting on a diverging path as it was. */
  lemma {:induction false} SetKeepsOtherPaths(m: map<string, Conf>, path: seq<string>, v: Conf, other: seq<string>)
    requires |path| >= 1 && SetPath(m, path, v).Ok? && Diverge(path, other)
    ensures Lookup(Node(SetPath(m, path, v).value), other) == Lookup(Node(m), other)
    decreases |path|
  {
    var k := path[0];
    if |path| > 1 && other[0] == k {
      var below := if k in m then m[k] else Node(map[]);
      SetKeepsOtherPaths(below.entries, path[1..], v, other[1..]);
      if k !in m {
        MissingStaysMissing(other[1..]);
      }
    }
  }

  /** Below an empty table every non-empty path is missing. */
  lemma MissingStaysMissing(path: seq<string>)
    requires path != []
    ensures Lookup(Node(map[]), path) == None
  {
  }

  // ---------------------------------------------------------------------------
  // Merging a configuration file over the settings.

  /** `_merge_config`: where both sides hold a table the tables merge entry by
      entry; anywhere else the override's setting replaces the base's. */
  function Merge(base: Conf, over: Conf): (r: Conf)
    ensures base.Node? && over.Node? ==> r.Node? && r.entries.Keys == base.entries.Keys + over.entries.Keys
    ensures !(base.Node? && over.Node?) ==> r == over
    decreases over
  {
    if base.Node? && over.Node? then
      Node(map k | k in base.entries.Keys + over.entries.Keys ::
        if k !in over.entries then base.entries[k]
        else if k in base.entries then Merge(base.entries[k], over.entries[k])
        else over.entries[k])
    else over
  }

  /** Merging keeps every base entry the override does not mention, and a
      plain value in the override always wins. */
  lemma MergeEntries(base: map<string, Conf>, over: map<string, Conf>, k: string)
    ensures k in base && k !in over ==> Merge(Node(base), Node(over)).entries[k] == base[k]
    ensures k in over && over[k].Leaf? ==> Merge(Node(base), Node(over)).entries[k] == over[k]
    ensures k in over && k !in base ==> Merge(Node(base), Node(over)).entries[k] == over[k]
  {
  }

  /** Every plain value the override sets is what a lookup of its path finds
      after the merge. */
  lemma {:induction false} MergeOverrideWins(base: Conf, over: Conf, path: seq<string>)
    requires Lookup(over, path).Some? && Lookup(over, path).value.Leaf?
    ensures Lookup(Merge(base, over), path) == Lookup(over, path)
    decreases |path|
  {
    if path != [] && base.Node? {
      var k := path[0];
      if k in base.entries {
        MergeOverrideWins(base.entries[k], over.entries[k], path[1..]);
      }
    }
  }

  /** A setting of the base whose path the override does not reach at all
      survives the merge. */
  lemma {:induction false} MergeKeepsUntouched(base: Conf, over: Conf, path: seq<string>)
    requires base.Node? && over.Node? && path != []
    requires Lookup(over, path[..1]).None?
    ensures Lookup(Merge(base, over), path) == Lookup(base, path)
  {
    assert path[..1] == [path[0]];
  }

  /** Merging the same override twice is merging it once. */
  lemma {:induction false} MergeIdempotent(base: Conf, over: Conf)
    ensures Merge(Merge(base, over), over) == Merge(base, over)
    decreases over
  {
    if base.Node? && over.Node? {
      var once := Merge(base, over);
      var twice := Merge(once, over);
      assert twice.entries.Keys == once.entries.Keys;
      forall k | k in once.entries ensures twice.entries[k] == once.entries[k] {
        if k in over.entries {
          if k in base.entries {
            MergeIdempotent(base.entries[k], over.entries[k]);
          } else {
            MergeSelf(over.entries[k]);
          }
        }
      }
      assert twice.entries == once.entries;
    } else {
      MergeSelf(over);
    }
  }

  /** Merging a setting over itself changes nothing. */
  lemma {:induction false} MergeSelf(c: Conf)
    ensures Merge(c, c) == c
    decreases c
  {
    if c.Node? {
      forall k | k in c.entries ensures Merge(c.entries[k], c.entries[k]) == c.entries[k] {
        MergeSelf(c.entries[k]);
      }
      assert Merge(c, c).entries == c.entries;
    }
  }

  // ---------------------------------------------------------------------------
  // Defaults and validation.

  function Table(entries: map<string, Conf>): Conf { Node(entries) }

  /** `_load_default_config`. */
  function Defaults(): (d: map<string, Conf>)
    ensures d.Keys == {"database", "logging", "api", "performance", "security", "development"}
  {
    map[
      "database" := Table(map[
        "path" := Leaf(Str("./data/adb_database.json")),
        "backup_dir" := Leaf(Str("./backups")),
        "auto_backup_interval" := Leaf(Int(3600)),
        "max_records_per_table" := Leaf(Int(100000))]),
      "logging" := Table(map[
        "level" := Leaf(Str("INFO")),
        "file" := Leaf(Str("./logs/adb.log")),
        "format" := Leaf(Str("%(asctime)s - %(name)s - %(levelname)s - %(message)s")),
        "max_size" := Leaf(Int(10485760)),
        "backup_count" := Leaf(Int(5))]),
      "api" := Table(map[
        "host" := Leaf(Str("127.0.0.1")),
        "port" := Leaf(Int(5000)),
        "debug" := Leaf(Bool(false)),
        "api_key" := Leaf(Null),
        "require_api_key" := Leaf(Bool(true)),
        "max_request_size" := Leaf(Int(10485760)),
        "cors_enabled" := Leaf(Bool(false)),
        "rate_limiting" := Table(map[
          "enabled" := Leaf(Bool(false)),
          "requests_per_minute" := Leaf(Int(60))])]),
      "performance" := Table(map[
        "index_cache_size" := Leaf(Int(1000)),
        "query_timeout" := Leaf(Int(30)),
        "transaction_timeout" := Leaf(Int(60)),
        "memory_limit" := Leaf(Int(536870912))]),
      "security" := Table(map[
        "allow_schema_changes" := Leaf(Bool(true)),
        "encrypt_backups" := Leaf(Bool(false)),
        "audit_logging" := Leaf(Bool(false))]),
      "development" := Table(map[
        "dev_mode" := Leaf(Bool(false)),
        "enable_profiling" := Leaf(Bool(false)),
        "mock_data" := Leaf(Bool(false))])
    ]
  }

  /** The complaints `validate` prints. */
  datatype Problem = BadPort | EmptyPath | BadLevel

  /** `isinstance(port, int) and 1 <= port <= 65535`; a bool is an int, so
      True passes as 1 and False fails as 0. */
  predicate PortOk(port: Option<Conf>)
  {
    port.Some? && port.value.Leaf? && IsNumber(port.value.v) && 1 <= NumberOf(port.value.v) <= 65535
  }

  /** Python truthiness of a setting (a missing one reads as None). */
  predicate Truthy(c: Option<Conf>)
  {
    match c
    case None => false
    case Some(Node(entries)) => entries != map[]
    case Some(Leaf(v)) =>
      match v
      case Null => false
      case Bool(b) => b
      case Int(i) => i != 0
      case Str(s) => s != ""
  }

  const LogLevels: seq<string> := ["DEBUG", "INFO", "WARNING", "ERROR", "CRITICAL"]

  predicate LevelOk(level: Option<Conf>)
  {
    level.Some? && level.value.Leaf? && level.value.v.Str? && level.value.v.s in LogLevels
  }

  /** The configuration store. */
  class Settings {
    var config: map<string, Conf>

    /** `__init__` without environment variables: the defaults, with the
        configuration file (when there is one) merged over them. */
    constructor (file: Option<map<string, Conf>>)
      ensures file.None? ==> config == Defaults()
      ensures file.Some? ==> Node(config) == Merge(Node(Defaults()), Node(file.value))
    {
      var defaults := Defaults();
      if file.Some? {
        config := Merge(Node(defaults), Node(file.value)).entries;
      } else {
        config := defaults;
      }
    }

    /** `_merge_config` applied to the settings. */
    method MergeFile(over: map<string, Conf>)
      modifies this
      ensures Node(config) == Merge(Node(old(config)), Node(over))
    {
      config := Merge(Node(config), Node(over)).entries;
    }

    /** `get`: the setting the dotted key leads to, or `default` when a piece
        is missing or the walk meets a plain value. */
    method Get(key: string, default: Conf) returns (r: Conf)
      ensures r == (match Lookup(Node(config), SplitDots(key)) case Some(c) => c case None => default)
    {
      var keys := SplitDots(key);
      var value := Node(config);
      var i := 0;
      while i < |keys|
        invariant 0 <= i <= |keys|
        invariant Lookup(Node(config), keys) == Lookup(value, keys[i..])
      {
        if value.Node? && keys[i] in value.entries {
          assert keys[i..][1..] == keys[i + 1..];
          value := value.entries[keys[i]];
        } else {
          return default;
        }
        i := i + 1;
      }
      r := value;
    }

    /** `set`: the dotted key's setting becomes `value`, missing tables on the
        way are created; TypeError (and nothing changed) when an existing
        setting on the way is a plain value. */
    method Set(key: string, value: Conf) returns (r: Result<()>)
      modifies this
      ensures SetPath(old(config), SplitDots(key), value).Ok? ==>
        r.Ok? && config == SetPath(old(config), SplitDots(key), value).value
      ensures SetPath(old(config), SplitDots(key), value).Err? ==> r == Err(TypeMismatch) && config == old(config)
    {
      match SetPath(config, SplitDots(key), value)
      case Err(e) =>
        SetPathFails(config, SplitDots(key), value);
        r := Err(e);
      case Ok(updated) =>
        config := updated;
        r := Ok(());
    }

    /** The complaints of `validate`, in the order it checks. */
    function Problems(): (ps: seq<Problem>)
      reads this
      ensures BadPort in ps <==> !PortOk(Lookup(Node(config), ["api", "port"]))
      ensures EmptyPath in ps <==> !Truthy(Lookup(Node(config), ["database", "path"]))
      ensures BadLevel in ps <==> !LevelOk(Lookup(Node(config), ["logging", "level"]))
    {
      var root := Node(config);
      (if PortOk(Lookup(root, ["api", "port"])) then [] else [BadPort]) +
      (if Truthy(Lookup(root, ["database", "path"])) then [] else [EmptyPath]) +
      (if LevelOk(Lookup(root, ["logging", "level"])) then [] else [BadLevel])
    }

    /** `validate`: true exactly when there is nothing to complain about. */
    function Validate(): (ok: bool)
      reads this
      ensures ok <==> PortOk(Lookup(Node(config), ["api", "port"])) &&
                      Truthy(Lookup(Node(config), ["database", "path"])) &&
                      LevelOk(Lookup(Node(config), ["logging", "level"]))
    {
      Problems() == []
    }

    /** `to_dict`: a copy of the top-level table. */
    function ToDict(): (d: map<string, Conf>)
      reads this
      ensures forall k :: k in d <==> k in config
      ensures forall k :: k in d ==> d[k] == config[k]
    {
      config
    }
  }

  /** The built-in defaults pass validation. */
  lemma DefaultsValid()
    ensures PortOk(Lookup(Node(Defaults()), ["api", "port"]))
    ensures Truthy(Lookup(Node(Defaults()), ["database", "path"]))
    ensures LevelOk(Lookup(Node(Defaults()), ["logging", "level"]))
  {
    var d := Defaults();
    assert d["api"].entries["port"] == Leaf(Int(5000));
    assert Lookup(Node(d), ["api", "port"]) == Lookup(d["api"], ["port"]);
    assert ["api", "port"][1..] == ["port"];
    assert ["database", "path"][1..] == ["path"];
    assert ["logging", "level"][1..] == ["level"];
    assert Lookup(Node(d), ["database", "path"]) == Some(Leaf(Str("./data/adb_database.json")));
    assert Lookup(Node(d), ["logging", "level"]) == Some(Leaf(Str("INFO")));
  }
}
