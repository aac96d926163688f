/**
  LoadConfig (middlewares/middleware.go): flatten the top-level entries of a
  decoded JSON object into environment variables. The file system and the
  JSON decoder are inputs (`ConfigFile`); the process environment is an
  explicit map threaded through and returned.
 */
module Config {
  import opened Wrappers
  import Strs

  /** A decoded JSON value, as far as LoadConfig distinguishes it. */
  datatype Json =
    | Str(s: string)         // Go string
    | Arr(items: seq<Json>)  // Go []interface{}
    | Other                  // number, bool, null or object

  /** What opening and decoding the file produced. */
  datatype ConfigFile =
    | OpenFailed(openError: string)
    | DecodeFailed(decodeError: string)
    | Decoded(config: map<string, Json>)

  /**
    How LoadConfig ends: the nil error, one of the two errors it returns, or
    the run-time panic of the `item.(string)` type assertion.
   */
  datatype Outcome = Loaded | OpenError(openError: string) | DecodeError(decodeError: string) | Panicked

  type Env = map<string, string>

  /** The strings of an array, or None when some element is not a string. */
  function ArrayStrings(items: seq<Json>): (r: Option<seq<string>>)
    ensures r.Some? <==> forall j :: 0 <= j < |items| ==> items[j].Str?
    ensures r.Some? ==> |r.value| == |items|
    ensures r.Some? ==> forall j :: 0 <= j < |items| ==> r.value[j] == items[j].s
    decreases |items|
  {
    if items == [] then Some([])
    else
      match ArrayStrings(items[1..])
      case None => None
      case Some(rest) =>
        if items[0].Str? then Some([items[0].s] + rest) else None
  }

  /** An array of strings joined with ','; None when the type assertion panics. */
  function FlattenArray(items: seq<Json>): (r: Option<string>)
    ensures r.None? <==> exists j :: 0 <= j < |items| && !items[j].Str?
    ensures items == [] ==> r == Some("")
  {
    match ArrayStrings(items)
    case None => None
    case Some(strs) => Some(Strs.Join(strs, ','))
  }

  /** What one entry asks of the environment. */
  datatype Action = Assign(value: string) | Skip | Panic

  /**
    The type switch: a string is assigned verbatim, an all-string array is
    assigned joined by ',', an array with another element panics, and any
    other value is skipped.
   */
  function ActionFor(v: Json): (a: Action)
    ensures v.Str? ==> a == Assign(v.s)
    ensures v.Arr? && ArrayStrings(v.items).Some? ==> a == Assign(Strs.Join(ArrayStrings(v.items).value, ','))
    ensures a.Panic? <==> v.Arr? && exists j :: 0 <= j < |v.items| && !v.items[j].Str?
    ensures a.Skip? <==> v.Other?
  {
    match v
    case Str(s) => Assign(s)
    case Arr(items) =>
      (match FlattenArray(items)
       case Some(joined) => Assign(joined)
       case None => Panic)
    case Other => Skip
  }

  /**
    os.Setenv on Unix refuses an empty name, a name containing '=' or NUL,
    and a value containing NUL, and then changes nothing. LoadConfig
    discards that error.
   */
  predicate SetenvAccepts(key: string, value: string)
  {
    |key| > 0 && '=' !in key && '\0' !in key && '\0' !in value
  }

  /** os.Setenv on the environment map: the one variable set, or nothing on refusal. */
  function Setenv(env: Env, key: string, value: string): (r: Env)
    ensures SetenvAccepts(key, value) ==> key in r && r[key] == value
    ensures !SetenvAccepts(key, value) ==> r == env
    ensures forall k :: k != key ==> (k in r <==> k in env) && (k in env ==> r[k] == env[k])
  {
    if SetenvAccepts(key, value) then env[key := value] else env
  }

  /** The entry for `key` changes the environment: a value is assigned and Setenv accepts it. */
  predicate Writes(config: map<string, Json>, key: string)
    requires key in config
  {
    ActionFor(config[key]).Assign? && SetenvAccepts(key, ActionFor(config[key]).value)
  }

  /** Keys among `keys` whose value is written to the environment. */
  function AssignedKeys(config: map<string, Json>, keys: set<string>): set<string>
    requires keys <= config.Keys
  {
    set k | k in keys && Writes(config, k)
  }

  /** Keys among `keys` skipped with a warning. */
  function SkippedKeys(config: map<string, Json>, keys: set<string>): set<string>
    requires keys <= config.Keys
  {
    set k | k in keys && ActionFor(config[k]).Skip?
  }

  /** Keys whose array holds a non-string element. */
  function PanicKeys(config: map<string, Json>): set<string>
  {
    set k | k in config && ActionFor(config[k]).Panic?
  }

  /**
    The environment after the entries for `keys` have been applied to `env`
    (in any order: each key is written at most once).
   */
  function Applied(env: Env, config: map<string, Json>, keys: set<string>): (r: Env)
    requires keys <= config.Keys
    ensures env.Keys <= r.Keys
    ensures forall k :: k in r && k !in env ==> k in keys && Writes(config, k)
  {
    map k | k in env.Keys + AssignedKeys(config, keys) ::
      if k in keys && Writes(config, k) then ActionFor(config[k]).value else env[k]
  }

  /**
    What applying the entries means, key by key: a string is set verbatim, an
    array of strings is set to its elements joined by ',', any other value,
    any value Setenv refuses and any key outside the applied set leave the
    environment as it was.
   */
  lemma AppliedEntries(env: Env, config: map<string, Json>, keys: set<string>)
    requires keys <= config.Keys
    ensures forall k :: k in keys && config[k].Str? && SetenvAccepts(k, config[k].s) ==>
              k in Applied(env, config, keys) && Applied(env, config, keys)[k] == config[k].s
    ensures forall k :: k in keys && config[k].Arr? && ArrayStrings(config[k].items).Some? &&
                        SetenvAccepts(k, Strs.Join(ArrayStrings(config[k].items).value, ',')) ==>
              k in Applied(env, config, keys) &&
              Applied(env, config, keys)[k] == Strs.Join(ArrayStrings(config[k].items).value, ',')
    ensures forall k :: k in keys && ActionFor(config[k]).Assign? &&
                        !SetenvAccepts(k, ActionFor(config[k]).value) ==>
              (k in Applied(env, config, keys) <==> k in env) &&
              (k in env ==> Applied(env, config, keys)[k] == env[k])
    ensures forall k :: k in keys && config[k].Other? ==>
              (k in Applied(env, config, keys) <==> k in env) &&
              (k in env ==> Applied(env, config, keys)[k] == env[k])
    ensures forall k :: k !in keys ==>
              (k in Applied(env, config, keys) <==> k in env) &&
              (k in env ==> Applied(env, config, keys)[k] == env[k])
  {
  }

  /**
    Adding one key to the applied set is one Setenv call with its flattened
    value, or no change for a skipped key.
   */
  lemma AppliedStep(env: Env, config: map<string, Json>, keys: set<string>, key: string)
    requires keys <= config.Keys && key in config && key !in keys
    ensures ActionFor(config[key]).Assign? ==>
              Applied(env, config, keys + {key}) ==
              Setenv(Applied(env, config, keys), key, ActionFor(config[key]).value)
    ensures !ActionFor(config[key]).Assign? ==>
              Applied(env, config, keys + {key}) == Applied(env, config, keys)
  {
    var before, after := Applied(env, config, keys), Applied(env, config, keys + {key});
    if Writes(config, key) {
      var expected := before[key := ActionFor(config[key]).value];
      assert after.Keys == expected.Keys;
      assert forall k :: k in after ==> after[k] == expected[k];
    } else {
      assert after.Keys == before.Keys;
      assert forall k :: k in after ==> after[k] == before[k];
    }
  }

  /**
    Order does not matter: applying a batch `a` of keys and then a disjoint
    batch `b` equals applying both at once, so every iteration order of the
    config map yields the same environment.
   */
  lemma AppliedBatches(env: Env, config: map<string, Json>, a: set<string>, b: set<string>)
    requires a + b <= config.Keys && a !! b
    ensures Applied(Applied(env, config, a), config, b) == Applied(env, config, a + b)
    ensures Applied(Applied(env, config, a), config, b) == Applied(Applied(env, config, b), config, a)
  {
    AppliedThenApplied(env, config, a, b);
    AppliedThenApplied(env, config, b, a);
    assert b + a == a + b;
  }

  lemma AppliedThenApplied(env: Env, config: map<string, Json>, a: set<string>, b: set<string>)
    requires a + b <= config.Keys && a !! b
    ensures Applied(Applied(env, config, a), config, b) == Applied(env, config, a + b)
  {
    var mid := Applied(env, config, a);
    var ab, both := Applied(mid, config, b), Applied(env, config, a + b);
    assert ab.Keys == both.Keys by {
      assert AssignedKeys(config, a + b) == AssignedKeys(config, a) + AssignedKeys(config, b);
    }
    forall k | k in ab ensures ab[k] == both[k] {
      if k in b && ActionFor(config[k]).Assign? {
      } else if k in a && ActionFor(config[k]).Assign? {
        assert ab[k] == mid[k];
      } else {
        assert ab[k] == mid[k] == env[k];
      }
    }
  }

  /** An entry whose name Setenv refuses, such as the empty name, leaves the environment as it was. */
  lemma RefusedNameLeavesEnv(env: Env, value: string)
    ensures Applied(env, map["" := Str(value)], {""}) == env
  {
    var config := map["" := Str(value)];
    assert !Writes(config, "");
    assert AssignedKeys(config, {""}) == {};
  }

  /** An array of comma-free strings, once joined, splits back into its elements. */
  lemma FlattenArraySplitsBack(items: seq<Json>)
    requires |items| >= 1
    requires forall j :: 0 <= j < |items| ==> items[j].Str? && ',' !in items[j].s
    ensures FlattenArray(items).Some?
    ensures Strs.Split(FlattenArray(items).value, ',') == ArrayStrings(items).value
  {
    Strs.SplitJoin(ArrayStrings(items).value, ',');
  }

  /**
    The inner loop: copy each element into a fresh `[]string` through the
    `item.(string)` assertion, then strings.Join with ','. None is the panic
    of the first element that is not a string.
   */
  method JoinStrings(items: seq<Json>) returns (joined: Option<string>)
    ensures joined == FlattenArray(items)
  {
    var strValues := new string[|items|];
    var i := 0;
    while i < |items|
      invariant 0 <= i <= |items|
      invariant forall j :: 0 <= j < i ==> items[j].Str? && strValues[j] == items[j].s
    {
      if !items[i].Str? {
        return None;
      }
      strValues[i] := items[i].s;
      i := i + 1;
    }
    assert strValues[..] == ArrayStrings(items).value;
    joined := Some(Strs.Join(strValues[..], ','));
  }

  /**
    The `for key, value := range config` loop. Go visits the keys in an
    unspecified order; `:|` lets the proof hold for every order. On a panic
    the environment keeps the updates made so far: `processed` names the keys
    already applied, and an unprocessed key with a bad array remains.
   */
  method ApplyConfig(config: map<string, Json>, env0: Env)
    returns (panicked: bool, env: Env, warned: set<string>, ghost processed: set<string>)
    ensures processed <= config.Keys
    ensures env == Applied(env0, config, processed)
    ensures warned == SkippedKeys(config, processed)
    ensures panicked <==> PanicKeys(config) != {}
    ensures !panicked ==> processed == config.Keys
    ensures panicked ==> exists k :: k in config.Keys - processed && ActionFor(config[k]).Panic?
  {
    env, warned, processed, panicked := env0, {}, {}, false;
    var remaining := config.Keys;
    assert Applied(env0, config, {}) == env0;
    while remaining != {}
      invariant processed <= config.Keys
      invariant remaining == config.Keys - processed
      invariant env == Applied(env0, config, processed)
      invariant warned == SkippedKeys(config, processed)
      invariant forall k :: k in processed ==> !ActionFor(config[k]).Panic?
      decreases remaining
    {
      var key :| key in remaining;
      AppliedStep(env0, config, processed, key);
      match config[key] {
        case Str(v) =>
          env := Setenv(env, key, v);
        case Arr(items) =>
          var joined := JoinStrings(items);
          if joined.None? {
            panicked := true;
            assert key in PanicKeys(config);
            return;
          }
          env := Setenv(env, key, joined.value);
        case Other =>
          warned := warned + {key};
      }
      processed := processed + {key};
      remaining := remaining - {key};
    }
    assert PanicKeys(config) == {} by {
      forall k | k in config ensures !ActionFor(config[k]).Panic? {
        assert k in processed;
      }
    }
  }

  /**
    LoadConfig: an open or decode failure is returned before any environment
    update; otherwise every entry is applied, or the type assertion panics
    part-way with the environment changed only at config keys, each to its
    flattened value.
   */
  method LoadConfig(file: ConfigFile, env0: Env) returns (outcome: Outcome, env: Env, warned: set<string>)
    ensures file.OpenFailed? ==> outcome == OpenError(file.openError) && env == env0 && warned == {}
    ensures file.DecodeFailed? ==> outcome == DecodeError(file.decodeError) && env == env0 && warned == {}
    ensures file.Decoded? ==> (outcome == Panicked <==> PanicKeys(file.config) != {})
    ensures file.Decoded? && outcome != Panicked ==>
              outcome == Loaded &&
              env == Applied(env0, file.config, file.config.Keys) &&
              warned == SkippedKeys(file.config, file.config.Keys)
    ensures file.Decoded? ==> forall k :: k !in file.config ==>
              (k in env <==> k in env0) && (k in env ==> env[k] == env0[k])
    ensures file.Decoded? ==> forall k :: k in env && (k !in env0 || env[k] != env0[k]) ==>
              k in file.config && ActionFor(file.config[k]) == Assign(env[k]) && SetenvAccepts(k, env[k])
  {
    match file
    case OpenFailed(e) =>
      outcome, env, warned := OpenError(e), env0, {};
    case DecodeFailed(e) =>
      outcome, env, warned := DecodeError(e), env0, {};
    case Decoded(config) =>
      var panicked;
      ghost var processed;
      panicked, env, warned, processed := ApplyConfig(config, env0);
      outcome := if panicked then Panicked else Loaded;
  }
}
