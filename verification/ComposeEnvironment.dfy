/** The environment of a service as a mapping, from either of its forms (`normalizeEnvironment`). */
module ComposeEnvironment {
  import opened Fields
  import opened Optional
  import opened ComposeDocument
  import opened Text

  /** One assignment of the list form: split at the first equals sign, ignored without a key. */
  function Assign(env: Fields<Value>, entry: string): (env': Fields<Value>) {
    var parts := Split(entry, '=');
    if parts[0] == "" then env else Put(env, parts[0], Str(Join(parts[1..], '=')))
  }

  function AssignAll(entries: seq<string>): (env: Fields<Value>) {
    if entries == [] then [] else Assign(AssignAll(entries[..|entries| - 1]), entries[|entries| - 1])
  }

  function AsMapping(env: Environment): (vars: Fields<Value>) {
    match env
    case NoEnvironment => []
    case Assignments(entries) => AssignAll(entries)
    case Variables(vars) => vars
  }

  method NormalizeEnvironment(env: Environment) returns (vars: Fields<Value>)
    ensures vars == AsMapping(env)
  {
    if env.NoEnvironment? { return []; }
    if env.Assignments? {
      vars := [];
      for k := 0 to |env.entries|
        invariant vars == AssignAll(env.entries[..k])
      {
        assert env.entries[..k + 1][..k] == env.entries[..k];
        var parts := Split(env.entries[k], '=');
        if parts[0] != "" {
          vars := Put(vars, parts[0], Str(Join(parts[1..], '=')));
        }
      }
      assert env.entries[..|env.entries|] == env.entries;
      return;
    }
    return env.vars;
  }

  /** `KEY=VALUE` assigns everything after the first equals sign. */
  lemma AssignsAtFirstEquals(env: Fields<Value>, key: string, value: string)
    requires key != "" && '=' !in key
    ensures Assign(env, key + "=" + value) == Put(env, key, Str(value))
  {
    assert key + "=" + value == key + ['='] + value;
    SplitFirst(key, value, '=');
    SplitParts(value, '=');
    assert ([key] + Split(value, '='))[1..] == Split(value, '=');
  }

  /** Without an equals sign the entry is a key with an empty value; without a key it is ignored. */
  lemma AssignsOddEntries(env: Fields<Value>, entry: string, value: string)
    requires '=' !in entry
    ensures entry != "" ==> Assign(env, entry) == Put(env, entry, Str(""))
    ensures Assign(env, "=" + value) == env
    ensures Assign(env, "") == env
  {
    SplitWhole(entry, '=');
    assert Split(entry, '=')[1..] == [];
    assert "=" + value == "" + ['='] + value;
    SplitFirst("", value, '=');
  }

  /** The entry gives `key` the value `value`. */
  predicate Assigns(entry: string, key: string, value: string) {
    ProperKey(key) && (entry == key + "=" + value || (entry == key && value == ""))
  }

  ghost predicate AssignsKey(entry: string, key: string) {
    exists value :: Assigns(entry, key, value)
  }

  lemma AssignIs(env: Fields<Value>, entry: string, key: string, value: string)
    requires Assigns(entry, key, value)
    ensures Assign(env, entry) == Put(env, key, Str(value))
  {
    if entry == key + "=" + value {
      AssignsAtFirstEquals(env, key, value);
    } else {
      AssignsOddEntries(env, entry, "");
    }
  }

  /** Any entry assigns the key before its first equals sign, or nothing when there is none. */
  lemma AssignIsNot(env: Fields<Value>, entry: string, key: string)
    requires !AssignsKey(entry, key)
    ensures Get(Assign(env, entry), key) == Get(env, key)
  {
    var k := IndexOf(entry, '=');
    if entry == "" {
      AssignsOddEntries(env, entry, "");
    } else if k == 0 {
      assert entry == "=" + entry[1..];
      AssignsOddEntries(env, "", entry[1..]);
    } else {
      var name, value := if k == -1 then entry else entry[..k], if k == -1 then "" else entry[k + 1..];
      assert k != -1 ==> entry == name + "=" + value;
      assert Assigns(entry, name, value);
      AssignIs(env, entry, name, value);
      PutGet(env, name, Str(value), key);
    }
  }

  /** Of the entries that assign a key the last one counts. */
  lemma {:induction false} LastAssignmentWins(entries: seq<string>, k: nat, key: string, value: string)
    requires k < |entries| && Assigns(entries[k], key, value)
    requires forall j | k < j < |entries| :: !AssignsKey(entries[j], key)
    ensures Get(AssignAll(entries), key) == Some(Str(value))
  {
    var last := |entries| - 1;
    if k == last {
      AssignIs(AssignAll(entries[..last]), entries[last], key, value);
      PutGet(AssignAll(entries[..last]), key, Str(value), key);
    } else {
      LastAssignmentWins(entries[..last], k, key, value);
      AssignIsNot(AssignAll(entries[..last]), entries[last], key);
    }
  }

  /** And a key no entry assigns is not there. */
  lemma {:induction false} NotAssigned(entries: seq<string>, key: string)
    requires forall j | 0 <= j < |entries| :: !AssignsKey(entries[j], key)
    ensures Get(AssignAll(entries), key) == None
  {
    if entries != [] {
      var last := |entries| - 1;
      NotAssigned(entries[..last], key);
      AssignIsNot(AssignAll(entries[..last]), entries[last], key);
    }
  }

  /** What `key` is in an environment, in any of its forms. */
  function Variable(env: Environment, key: string): (value: Option<Value>) {
    match env
    case NoEnvironment => None
    case Assignments(entries) => Get(AssignAll(entries), key)
    case Variables(vars) => Get(vars, key)
  }

  /** An environment in list form. */
  function Listed(env: Fields<string>): (entries: seq<string>)
    ensures |entries| == |env| && forall k | 0 <= k < |env| :: entries[k] == env[k].0 + "=" + env[k].1
  {
    if env == [] then [] else [env[0].0 + "=" + env[0].1] + Listed(env[1..])
  }

  function Texts(env: Fields<string>): (vars: Fields<Value>) {
    MapValues(env, (key: string, text: string) => Str(text))
  }

  predicate ProperKey(key: string) {
    key != "" && '=' !in key
  }

  predicate ProperKeys<T>(env: Fields<T>) {
    forall k | 0 <= k < |env| :: ProperKey(env[k].0)
  }

  lemma {:induction false} DistinctFront<T>(f: Fields<T>)
    requires f != [] && Distinct(f)
    ensures Distinct(f[..|f| - 1]) && !Has(f[..|f| - 1], f[|f| - 1].0)
  {
    if |f| > 1 {
      var last := |f| - 1;
      DistinctFront(f[1..]);
      assert f[1..][..last - 1] == f[..last][1..];
      FrontHasLess(f[1..], f[0].0);
      GetAt(f[1..], last - 1);
      assert f[1..][last - 1] == f[last];
    }
  }

  lemma {:induction false} FrontHasLess<T>(f: Fields<T>, key: string)
    requires f != [] && !Has(f, key)
    ensures !Has(f[..|f| - 1], key)
  {
    if |f| > 1 {
      FrontHasLess(f[1..], key);
      assert f[..|f| - 1][1..] == f[1..][..|f| - 2];
    }
  }

  /** A proper environment is read back from its list form, with its order. */
  lemma {:induction false} ListIsReadBack(env: Fields<string>)
    requires ProperKeys(env) && Distinct(env)
    ensures AssignAll(Listed(env)) == Texts(env)
  {
    if env != [] {
      var last := |env| - 1;
      var front := env[..last];
      DistinctFront(env);
      ListIsReadBack(front);
      assert Listed(env)[..last] == Listed(front);
      AssignsAtFirstEquals(Texts(front), env[last].0, env[last].1);
      TextsAtEnd(env);
    }
  }

  lemma TextsAtEnd(env: Fields<string>)
    requires env != [] && !Has(env[..|env| - 1], env[|env| - 1].0)
    ensures var (key, text) := env[|env| - 1]; Texts(env) == Put(Texts(env[..|env| - 1]), key, Str(text))
  {
    var (key, text) := env[|env| - 1];
    var front := env[..|env| - 1];
    GetMapped(front, (key: string, text: string) => Str(text), key);
    PutNew(Texts(front), key, Str(text));
  }

  lemma {:induction false} AssignAllProper(entries: seq<string>)
    ensures Distinct(AssignAll(entries)) && ProperKeys(AssignAll(entries))
  {
    if entries != [] {
      var front, entry := AssignAll(entries[..|entries| - 1]), entries[|entries| - 1];
      AssignAllProper(entries[..|entries| - 1]);
      var parts := Split(entry, '=');
      SplitParts(entry, '=');
      assert parts[0] in parts;
      if parts[0] != "" {
        PutDistinct(front, parts[0], Str(Join(parts[1..], '=')));
        PutProper(front, parts[0], Str(Join(parts[1..], '=')));
      }
    }
  }

  lemma {:induction false} PutProper<T>(f: Fields<T>, key: string, value: T)
    requires ProperKeys(f) && ProperKey(key)
    ensures ProperKeys(Put(f, key, value))
  {
    if f != [] && f[0].0 != key {
      assert forall k | 0 <= k < |f[1..]| :: f[1..][k] == f[k + 1];
      PutProper(f[1..], key, value);
    }
  }

  /** Exactly the environments whose keys are distinct, not empty and free of equals signs are read back. */
  lemma {:induction false} ListIsReadBackExactly(env: Fields<string>)
    ensures AssignAll(Listed(env)) == Texts(env) <==> ProperKeys(env) && Distinct(env)
  {
    if AssignAll(Listed(env)) == Texts(env) {
      AssignAllProper(Listed(env));
      assert forall k | 0 <= k < |env| :: Texts(env)[k].0 == env[k].0;
      DistinctTexts(env);
    } else if ProperKeys(env) && Distinct(env) {
      ListIsReadBack(env);
    }
  }

  lemma {:induction false} DistinctTexts(env: Fields<string>)
    ensures Distinct(Texts(env)) <==> Distinct(env)
  {
    if env != [] {
      DistinctTexts(env[1..]);
      GetMapped(env[1..], (key: string, text: string) => Str(text), env[0].0);
      assert Texts(env)[1..] == Texts(env[1..]);
    }
  }
}
