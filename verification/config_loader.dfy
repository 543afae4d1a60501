/** Lookups into the parsed configuration file (run/src/utils/ConfigLoader.py):
    the lenient dotted-path `get`, which answers a default on any failure, and the
    strict `get_database` / `get_sms_api` / `get_config_by_job`, which raise. */
module ConfigLoader {
  import opened Wrappers
  import Text

  /** A value produced by YAML `safe_load`, with string mapping keys. */
  datatype Value =
    | Null
    | Bool(b: bool)
    | Int(i: int)
    | Str(s: string)
    | List(items: seq<Value>)
    | Mapping(entries: map<string, Value>)

  /** What `value[k]` raises when it fails: a mapping without the key gives a
      `KeyError`, anything that is not a mapping gives a `TypeError`. */
  datatype LookupError = KeyError(key: string) | TypeError

  /** Python's `value[k]` for a string key. */
  function Index(value: Value, k: string): (r: Result<Value, LookupError>)
    ensures r.Success? <==> value.Mapping? && k in value.entries
    ensures r.Success? ==> r.value == value.entries[k]
    ensures r == Failure(TypeError) <==> !value.Mapping?
    ensures r.Failure? && r.error.KeyError? ==> r.error.key == k
  {
    match value
    case Mapping(entries) => if k in entries then Success(entries[k]) else Failure(KeyError(k))
    case _ => Failure(TypeError)
  }

  /** `for k in keys: value = value[k]`, stopping at the first exception. A
      `KeyError` names a key of the path, and a non-empty path into a value that
      is not a mapping is a `TypeError` at once. */
  function Walk(value: Value, keys: seq<string>): (r: Result<Value, LookupError>)
    ensures r.Failure? && r.error.KeyError? ==> r.error.key in keys
    ensures |keys| > 0 && !value.Mapping? ==> r == Failure(TypeError)
    decreases |keys|
  {
    if |keys| == 0 then Success(value)
    else
      match Index(value, keys[0])
      case Failure(e) => Failure(e)
      case Success(child) =>
        var rest := Walk(child, keys[1..]);
        assert rest.Failure? && rest.error.KeyError? ==> rest.error.key in keys by {
          if rest.Failure? && rest.error.KeyError? {
            var j :| 0 <= j < |keys[1..]| && keys[1..][j] == rest.error.key;
            assert keys[j + 1] == rest.error.key;
          }
        }
        rest
  }

  /** A path of one dot-free key is a single lookup. */
  lemma SingleSegmentWalk(config: Value, key: string)
    ensures '.' !in key ==> Walk(config, Text.Split(key, '.')) == Index(config, key)
  {
    if '.' !in key {
      Text.SplitJoin([key], '.');
      assert Text.Join([key], '.') == key;
      assert Text.Split(key, '.') == [key];
      assert [key][1..] == [];
      match Index(config, key)
      case Failure(e) =>
      case Success(child) => assert Walk(config, [key]) == Walk(child, []);
    }
  }

  /** Walking a concatenated path is walking the first part, then the second. */
  lemma {:induction false} WalkAppend(value: Value, p: seq<string>, q: seq<string>)
    ensures Walk(value, p + q) == match Walk(value, p)
                                  case Failure(e) => Failure(e)
                                  case Success(w) => Walk(w, q)
    decreases |p|
  {
    if |p| == 0 {
      assert p + q == q;
    } else {
      assert (p + q)[0] == p[0];
      assert (p + q)[1..] == p[1..] + q;
      match Index(value, p[0])
      case Failure(e) =>
      case Success(child) => WalkAppend(child, p[1..], q);
    }
  }

  /** `get(key, default)`: split the key on `.`, walk, and answer `default` on a
      `KeyError` or `TypeError`. A key without a dot is one top-level lookup: the
      entry when the configuration is a mapping holding the key, `default`
      otherwise. */
  function Get(config: Value, key: string, default: Value): (r: Value)
    ensures '.' !in key ==> r == if config.Mapping? && key in config.entries then config.entries[key] else default
  {
    SingleSegmentWalk(config, key);
    match Walk(config, Text.Split(key, '.'))
    case Success(v) => v
    case Failure(_) => default
  }

  /** `get(key)` without a default answers Python's `None` on failure. */
  function GetOrNone(config: Value, key: string): (r: Value)
    ensures Walk(config, Text.Split(key, '.')).Failure? ==> r == Null
    ensures Walk(config, Text.Split(key, '.')).Success? ==> r == Walk(config, Text.Split(key, '.')).value
  {
    Get(config, key, Null)
  }

  /** Splitting `a.b` on dots gives the segments of `a` followed by those of `b`. */
  lemma SplitAtSeparator(a: string, b: string, sep: char)
    ensures Text.Split(a + [sep] + b, sep) == Text.Split(a, sep) + Text.Split(b, sep)
  {
    var p := Text.Split(a, sep);
    var q := Text.Split(b, sep);
    Text.JoinSplit(a, sep);
    Text.JoinSplit(b, sep);
    Text.JoinAppend(p, q, sep);
    assert forall i :: 0 <= i < |p + q| ==> sep !in (p + q)[i] by {
      forall i | 0 <= i < |p + q| ensures sep !in (p + q)[i] {
        if i < |p| { assert (p + q)[i] == p[i]; } else { assert (p + q)[i] == q[i - |p|]; }
      }
    }
    Text.SplitJoin(p + q, sep);
  }

  /** Dotted lookup composes: when `a` resolves, `get("a.b")` is `get("b")` inside
      the value of `a`; when `a` does not resolve, `get("a.b")` is the default. */
  lemma GetDotted(config: Value, a: string, b: string, default: Value)
    ensures Get(config, a + "." + b, default) ==
            match Walk(config, Text.Split(a, '.'))
            case Success(w) => Get(w, b, default)
            case Failure(_) => default
  {
    SplitAtSeparator(a, b, '.');
    WalkAppend(config, Text.Split(a, '.'), Text.Split(b, '.'));
  }

  /** A two-level strict lookup `config[section][name]`: it succeeds exactly when
      both levels are mappings holding the keys, and then gives the nested entry. */
  predicate HasNested(config: Value, section: string, name: string) {
    && config.Mapping? && section in config.entries
    && config.entries[section].Mapping? && name in config.entries[section].entries
  }

  /** Walking a two-key path is indexing twice. */
  lemma WalkPair(config: Value, section: string, name: string)
    ensures var r := Walk(config, [section, name]);
            && (r.Success? <==> HasNested(config, section, name))
            && (r.Success? ==> r.value == config.entries[section].entries[name])
  {
    assert [section, name][1..] == [name];
    assert [name][1..] == [];
    match Index(config, section)
    case Failure(e) =>
    case Success(child) =>
      assert Walk(config, [section, name]) == Walk(child, [name]);
      match Index(child, name)
      case Failure(e) =>
      case Success(leaf) => assert Walk(child, [name]) == Walk(leaf, []);
  }

  /** `get_database(company)`: `config["database"][company]`, raising on failure. */
  function GetDatabase(config: Value, company: string): (r: Result<Value, LookupError>)
    ensures r.Success? <==> HasNested(config, "database", company)
    ensures r.Success? ==> r.value == config.entries["database"].entries[company]
    ensures !config.Mapping? ==> r == Failure(TypeError)
  {
    WalkPair(config, "database", company);
    Walk(config, ["database", company])
  }

  /** `get_sms_api()`: `config["sms_api"]`, raising on failure. */
  function GetSmsApi(config: Value): (r: Result<Value, LookupError>)
    ensures r.Success? <==> config.Mapping? && "sms_api" in config.entries
    ensures r.Success? ==> r.value == config.entries["sms_api"]
    ensures r.Failure? ==> r.error == if config.Mapping? then KeyError("sms_api") else TypeError
  {
    assert ["sms_api"][1..] == [];
    Walk(config, ["sms_api"])
  }

  /** `get_config_by_job(job)`: `config["jobs"]`, then the job's entry in it,
      raising on failure; the same as walking the two-key path. */
  function GetConfigByJob(config: Value, job: string): (r: Result<Value, LookupError>)
    ensures r.Success? <==> HasNested(config, "jobs", job)
    ensures r.Success? ==> r.value == config.entries["jobs"].entries[job]
    ensures r == Walk(config, ["jobs", job])
  {
    WalkPair(config, "jobs", job);
    assert ["jobs", job][1..] == [job];
    assert [job][1..] == [];
    match Index(config, "jobs")
    case Failure(e) => Failure(e)
    case Success(jobs) => Index(jobs, job)
  }

  /** The strict lookups raise exactly where the lenient `get` of the same dotted
      path would fall back to its default, and agree with it otherwise. */
  lemma StrictLookupsAgreeWithGet(config: Value, name: string, default: Value)
    requires '.' !in name
    ensures GetDatabase(config, name).Success? ==> Get(config, "database." + name, default) == GetDatabase(config, name).value
    ensures GetDatabase(config, name).Failure? ==> Get(config, "database." + name, default) == default
    ensures GetConfigByJob(config, name).Success? ==> Get(config, "jobs." + name, default) == GetConfigByJob(config, name).value
    ensures GetConfigByJob(config, name).Failure? ==> Get(config, "jobs." + name, default) == default
    ensures GetSmsApi(config).Success? ==> Get(config, "sms_api", default) == GetSmsApi(config).value
    ensures GetSmsApi(config).Failure? ==> Get(config, "sms_api", default) == default
  {
    assert "database." + name == "database" + "." + name;
    assert "jobs." + name == "jobs" + "." + name;
    SplitsAsPair("database", name);
    SplitsAsPair("jobs", name);
    Text.SplitJoin(["sms_api"], '.');
    assert Text.Join(["sms_api"], '.') == "sms_api";
    assert ["sms_api"][1..] == [];
  }

  lemma SplitsAsPair(a: string, b: string)
    requires '.' !in a && '.' !in b
    ensures Text.Split(a + "." + b, '.') == [a, b]
  {
    Text.SplitJoin([a, b], '.');
    assert Text.Join([a, b], '.') == a + "." + b;
  }
}
