/** Merging the platform's network and variables into a compose file, and what that keeps. */
module ComposeMerge {
  import opened Fields
  import opened Optional
  import opened ComposeDocument
  import opened ComposeEnvironment
  import opened ComposeNormalize
  import opened ComposeValidate
  import Text

  datatype Options = Options(targetServiceName: string, envVars: Fields<string>, networkName: string)

  const EXTERNAL := Mapping([("external", Flag(true))])

  /** The networks a service names. */
  function Named(n: Networks): (names: seq<string>) {
    match n
    case Unset => []
    case Empty => []
    case Names(names) => names
    case Settings(settings) => Keys(settings)
  }

  function MergedNetworks(n: Networks, networkName: string): (names: seq<string>) {
    var names := Named(n) + (if n.Unset? then ["default"] else []);
    if networkName in names then names else names + [networkName]
  }

  function MergedService(s: Service, o: Options): Service {
    s.(environment := Variables(PutAll(AsMapping(s.environment), Texts(o.envVars))),
       networks := Names(MergedNetworks(s.networks, o.networkName)))
  }

  /** Nothing when the target is not a service of the file: the code throws then. */
  function Merged(doc: Document, o: Options): (d: Option<Document>) {
    var s := Get(doc.services, o.targetServiceName);
    if s.None? then None
    else
      Some(doc.(services := Put(doc.services, o.targetServiceName, MergedService(s.value, o)),
                networks := Put(doc.networks, o.networkName, EXTERNAL)))
  }

  // ------------------------------------------------------------------
  // Connectivity
  // ------------------------------------------------------------------

  /** A service without `networks:` is on the stack's own default network. */
  function Attached(n: Networks): set<string> {
    if n.Unset? then {"default"} else set name <- Named(n)
  }

  predicate On(doc: Document, service: string, network: string) {
    var s := Get(doc.services, service);
    s.Some? && network in Attached(s.value.networks)
  }

  ghost predicate Connected(doc: Document, a: string, b: string) {
    exists network :: On(doc, a, network) && On(doc, b, network)
  }

  /** The merge attaches the target to the platform's network and changes no other attachment. */
  lemma MergeAttachesExactly(doc: Document, o: Options, service: string, network: string)
    requires Merged(doc, o).Some?
    ensures On(Merged(doc, o).value, service, network)
            <==> On(doc, service, network) || (service == o.targetServiceName && network == o.networkName)
  {
    var s := Get(doc.services, o.targetServiceName).value;
    PutGet(doc.services, o.targetServiceName, MergedService(s, o), service);
  }

  /**
   The networks of the target: those it had, in their order, the default network if it had no
   `networks:`, and the platform's network unless it is one of these.
   */
  lemma MergedNetworksAre(n: Networks, networkName: string)
    ensures var names := MergedNetworks(n, networkName);
            match n
            case Unset => names == if networkName == "default" then ["default"] else ["default", networkName]
            case Empty => names == [networkName]
            case Names(had) => names == if networkName in had then had else had + [networkName]
            case Settings(had) =>
              && (forall k | 0 <= k < |had| :: |had| <= |names| && names[k] == had[k].0)
              && names[|had|..] == if Has(had, networkName) then [] else [networkName]
  {
    if n.Settings? {
      KeysInOrder(n.settings);
      HasKey(n.settings, networkName);
    }
  }

  /** Services that could talk to each other still can; new connections go through the platform's network only. */
  lemma ConnectionsSurvive(doc: Document, o: Options, a: string, b: string)
    requires Merged(doc, o).Some?
    ensures var d := Merged(doc, o).value;
            Connected(d, a, b) <==> Connected(doc, a, b) || (On(d, a, o.networkName) && On(d, b, o.networkName))
  {
    var d := Merged(doc, o).value;
    forall network
      ensures On(d, a, network) && On(d, b, network)
              <==> (On(doc, a, network) && On(doc, b, network))
                   || (network == o.networkName && On(d, a, network) && On(d, b, network))
    {
      MergeAttachesExactly(doc, o, a, network);
      MergeAttachesExactly(doc, o, b, network);
    }
  }

  /** Reading `networks:` without a name in it as the default network too. */
  function AttachedWithDefault(n: Networks): set<string> {
    if Named(n) == [] then {"default"} else set name <- Named(n)
  }

  /** Under that reading the target keeps its networks unless it has a `networks:` that names none. */
  lemma DefaultIsKeptExactly(n: Networks, networkName: string)
    ensures AttachedWithDefault(Names(MergedNetworks(n, networkName))) == AttachedWithDefault(n) + {networkName}
            <==> n.Unset? || Named(n) != [] || networkName == "default"
  {
    var names := MergedNetworks(n, networkName);
    var before, after := AttachedWithDefault(n), AttachedWithDefault(Names(names));
    if n.Unset? || Named(n) != [] || networkName == "default" {
      assert after == before + {networkName};
    } else {
      assert names == [networkName];
      assert "default" in before && "default" !in after;
    }
  }

  predicate OnWithDefault(doc: Document, service: string, network: string) {
    var s := Get(doc.services, service);
    s.Some? && network in AttachedWithDefault(s.value.networks)
  }

  ghost predicate ConnectedWithDefault(doc: Document, a: string, b: string) {
    exists network :: OnWithDefault(doc, a, network) && OnWithDefault(doc, b, network)
  }

  /** The target has a `networks:` that names none: the merge takes it off the default network. */
  predicate LosesDefault(doc: Document, o: Options) {
    var s := Get(doc.services, o.targetServiceName);
    s.Some? && !s.value.networks.Unset? && Named(s.value.networks) == [] && o.networkName != "default"
  }

  lemma MergeAttachesWithDefault(doc: Document, o: Options, service: string, network: string)
    requires Merged(doc, o).Some?
    ensures OnWithDefault(Merged(doc, o).value, service, network)
            <==> if service == o.targetServiceName
                 then network == o.networkName || (OnWithDefault(doc, service, network) && !LosesDefault(doc, o))
                 else OnWithDefault(doc, service, network)
  {
    var s := Get(doc.services, o.targetServiceName).value;
    PutGet(doc.services, o.targetServiceName, MergedService(s, o), service);
    DefaultIsKeptExactly(s.networks, o.networkName);
  }

  ghost predicate ConnectionsKept(doc: Document, d: Document) {
    forall a, b :: ConnectedWithDefault(doc, a, b) ==> ConnectedWithDefault(d, a, b)
  }

  /** Another service is on the default network and not on the platform's. */
  ghost predicate LeftBehind(doc: Document, o: Options, b: string) {
    b != o.targetServiceName && OnWithDefault(doc, b, "default") && !OnWithDefault(doc, b, o.networkName)
  }

  /**
   Under that reading all connections survive the merge if and only if the target does not
   lose the default network, or nobody is left behind there.
   */
  lemma ConnectionsSurviveExactly(doc: Document, o: Options)
    requires Merged(doc, o).Some?
    ensures ConnectionsKept(doc, Merged(doc, o).value)
            <==> !LosesDefault(doc, o) || forall b :: !LeftBehind(doc, o, b)
  {
    var d := Merged(doc, o).value;
    if !LosesDefault(doc, o) || forall b :: !LeftBehind(doc, o, b) {
      forall a, b | ConnectedWithDefault(doc, a, b)
        ensures ConnectedWithDefault(d, a, b)
      {
        ConnectionSurvives(doc, o, a, b);
      }
    } else {
      var b :| LeftBehind(doc, o, b);
      ConnectionIsLost(doc, o, b);
    }
  }

  lemma ConnectionSurvives(doc: Document, o: Options, a: string, b: string)
    requires Merged(doc, o).Some? && ConnectedWithDefault(doc, a, b)
    requires !LosesDefault(doc, o) || forall b :: !LeftBehind(doc, o, b)
    ensures ConnectedWithDefault(Merged(doc, o).value, a, b)
  {
    var network :| OnWithDefault(doc, a, network) && OnWithDefault(doc, b, network);
    MergeAttachesWithDefault(doc, o, a, network);
    MergeAttachesWithDefault(doc, o, b, network);
    MergeAttachesWithDefault(doc, o, a, o.networkName);
    MergeAttachesWithDefault(doc, o, b, o.networkName);
    if LosesDefault(doc, o) {
      assert !LeftBehind(doc, o, a) && !LeftBehind(doc, o, b);
    }
  }

  lemma ConnectionIsLost(doc: Document, o: Options, b: string)
    requires Merged(doc, o).Some? && LosesDefault(doc, o) && LeftBehind(doc, o, b)
    ensures ConnectedWithDefault(doc, o.targetServiceName, b)
    ensures !ConnectedWithDefault(Merged(doc, o).value, o.targetServiceName, b)
  {
    assert OnWithDefault(doc, o.targetServiceName, "default");
    forall network
      ensures !(OnWithDefault(Merged(doc, o).value, o.targetServiceName, network)
                && OnWithDefault(Merged(doc, o).value, b, network))
    {
      MergeAttachesWithDefault(doc, o, o.targetServiceName, network);
      MergeAttachesWithDefault(doc, o, b, network);
    }
  }

  const PLAIN := Service(false, None, [], [], NoEnvironment, Unset, None, None, [])

  /** A web service with an empty `networks:` next to a database without one. */
  const PAIR := Document([], [("web", PLAIN.(networks := Empty)), ("db", PLAIN)], [], [])

  /** Exposing the web service of that pair cuts it off from the database. */
  lemma PairIsSeparated()
    ensures var d := Merged(PAIR, Options("web", [], "platform_internal"));
            && d.Some? && ConnectedWithDefault(PAIR, "web", "db") && !ConnectedWithDefault(d.value, "web", "db")
  {
    assert PAIR.services[1..] == [("db", PLAIN)] && "web" != "db";
    assert Get(PAIR.services, "web") == Some(PLAIN.(networks := Empty)) && Get(PAIR.services, "db") == Some(PLAIN);
    assert "platform_internal" != "default" && OnWithDefault(PAIR, "db", "default");
    ConnectionIsLost(PAIR, Options("web", [], "platform_internal"), "db");
  }

  /** Every network a service names is declared, or the default one. */
  predicate NetworksAreDeclared(doc: Document) {
    forall k | 0 <= k < |doc.services| ::
      forall name <- Named(doc.services[k].1.networks) :: name == "default" || Has(doc.networks, name)
  }

  lemma {:induction false} PutAt<T>(f: Fields<T>, key: string, value: T)
    requires Has(f, key)
    ensures |Put(f, key, value)| == |f|
    ensures forall k | 0 <= k < |f| ::
              Put(f, key, value)[k] == f[k]
                  || (f[k] == (key, Get(f, key).value) && Put(f, key, value)[k] == (key, value))
  {
    if f[0].0 != key {
      PutAt(f[1..], key, value);
      var g := Put(f[1..], key, value);
      forall k | 0 <= k < |f|
        ensures ([f[0]] + g)[k] == f[k] || (f[k] == (key, Get(f, key).value) && ([f[0]] + g)[k] == (key, value))
      {
        if k > 0 { assert f[k] == f[1..][k - 1] && ([f[0]] + g)[k] == g[k - 1]; }
      }
    } else {
      assert ([(key, value)] + f[1..])[1..] == f[1..];
    }
  }

  lemma MergeKeepsNetworksDeclared(doc: Document, o: Options)
    requires NetworksAreDeclared(doc) && Merged(doc, o).Some?
    ensures NetworksAreDeclared(Merged(doc, o).value)
  {
    var d := Merged(doc, o).value;
    var s := Get(doc.services, o.targetServiceName).value;
    PutAt(doc.services, o.targetServiceName, MergedService(s, o));
    forall k, name | 0 <= k < |d.services| && name in Named(d.services[k].1.networks)
      ensures name == "default" || Has(d.networks, name)
    {
      PutGet(doc.networks, o.networkName, EXTERNAL, name);
      if d.services[k] != doc.services[k] { assert name in Named(s.networks) || name in ["default", o.networkName]; }
    }
  }

  /** The services agree in everything but their environment and their networks. */
  predicate SameButMerged(s: Service, t: Service) {
    && t.privileged == s.privileged && t.networkMode == s.networkMode && t.capAdd == s.capAdd
    && t.volumes == s.volumes && t.dependsOn == s.dependsOn && t.ports == s.ports && t.others == s.others
  }

  /**
   The merge keeps the other services, everything of the target but its environment and networks, the
   other networks and the rest of the file; the platform's network is declared as an external one.
   */
  lemma MergeKeepsTheRest(doc: Document, o: Options)
    requires Merged(doc, o).Some?
    ensures var d := Merged(doc, o).value;
            && d.otherKeys == doc.otherKeys && d.volumes == doc.volumes && |d.services| == |doc.services|
            && (forall k | 0 <= k < |doc.services| ::
                  && d.services[k].0 == doc.services[k].0 && SameButMerged(doc.services[k].1, d.services[k].1)
                  && (doc.services[k].0 != o.targetServiceName ==> d.services[k] == doc.services[k]))
            && Get(d.networks, o.networkName) == Some(Mapping([("external", Flag(true))]))
            && (forall name | name != o.networkName :: Get(d.networks, name) == Get(doc.networks, name))
  {
    var s := Get(doc.services, o.targetServiceName).value;
    PutAt(doc.services, o.targetServiceName, MergedService(s, o));
    forall name: string { PutGet(doc.networks, o.networkName, EXTERNAL, name); }
  }

  // ------------------------------------------------------------------
  // Environment
  // ------------------------------------------------------------------

  /** A variable of the target after the merge: the managed one, or else the one of the file. */
  lemma ManagedVariablesWin(s: Service, o: Options, key: string)
    requires Distinct(o.envVars)
    ensures Variable(MergedService(s, o).environment, key)
            == if Has(o.envVars, key) then Some(Str(Get(o.envVars, key).value)) else Variable(s.environment, key)
  {
    DistinctTexts(o.envVars);
    PutAllGet(AsMapping(s.environment), Texts(o.envVars), key);
    GetMapped(o.envVars, (key: string, text: string) => Str(text), key);
  }

  // ------------------------------------------------------------------
  // Merging twice, validating, normalising
  // ------------------------------------------------------------------

  lemma MergedServiceTwice(s: Service, o: Options)
    requires Distinct(o.envVars)
    ensures MergedService(MergedService(s, o), o) == MergedService(s, o)
  {
    DistinctTexts(o.envVars);
    PutAllTwice(AsMapping(s.environment), Texts(o.envVars));
    assert o.networkName in MergedNetworks(s.networks, o.networkName);
    assert MergedNetworks(s.networks, o.networkName) + [] == MergedNetworks(s.networks, o.networkName);
  }

  /** Merging twice is merging once. */
  lemma MergeTwice(doc: Document, o: Options)
    requires Distinct(o.envVars) && Merged(doc, o).Some?
    ensures Merged(Merged(doc, o).value, o) == Merged(doc, o)
  {
    var s := Get(doc.services, o.targetServiceName).value;
    var d := Merged(doc, o).value;
    PutGet(doc.services, o.targetServiceName, MergedService(s, o), o.targetServiceName);
    MergedServiceTwice(s, o);
    PutSame(d.services, o.targetServiceName, MergedService(s, o));
    PutGet(doc.networks, o.networkName, EXTERNAL, o.networkName);
    PutSame(d.networks, o.networkName, EXTERNAL);
  }

  /** Do two lists of services look the same to the validation? */
  predicate SameToValidation(f: Fields<Service>, g: Fields<Service>) {
    && |f| == |g|
    && forall k | 0 <= k < |f| ::
         f[k].0 == g[k].0 && f[k].1.privileged == g[k].1.privileged && f[k].1.networkMode == g[k].1.networkMode
         && f[k].1.capAdd == g[k].1.capAdd && f[k].1.volumes == g[k].1.volumes
  }

  lemma {:induction false} SameServiceErrors(f: Fields<Service>, g: Fields<Service>, declared: set<string>)
    requires SameToValidation(f, g)
    ensures AllServiceErrors(f, declared) == AllServiceErrors(g, declared)
  {
    if f != [] {
      SameServiceErrors(f[..|f| - 1], g[..|f| - 1], declared);
    }
  }

  /** The merge leaves the list of validation errors as it is. */
  lemma MergeKeepsErrors(doc: Document, o: Options)
    requires Merged(doc, o).Some?
    ensures Errors(Merged(doc, o).value) == Errors(doc)
  {
    var s := Get(doc.services, o.targetServiceName).value;
    PutAt(doc.services, o.targetServiceName, MergedService(s, o));
    SameServiceErrors(doc.services, Merged(doc, o).value.services, Declared(doc));
  }

  /** So does the normalisation. */
  lemma NormalizationKeepsErrors(json: Stringify, doc: Document)
    ensures Errors(Normalized(json, doc)) == Errors(doc)
  {
    SameServiceErrors(doc.services, Normalized(json, doc).services, Declared(doc));
  }

  predicate AllTexts(vars: Fields<Value>) {
    forall k | 0 <= k < |vars| :: vars[k].1.Str?
  }

  lemma {:induction false} PutTexts(f: Fields<Value>, key: string, text: string)
    requires AllTexts(f)
    ensures AllTexts(Put(f, key, Str(text)))
  {
    if f != [] && f[0].0 != key {
      PutTexts(f[1..], key, text);
    }
  }

  lemma {:induction false} AssignedAreTexts(entries: seq<string>)
    ensures AllTexts(AssignAll(entries))
  {
    if entries != [] {
      var front, parts := entries[..|entries| - 1], Text.Split(entries[|entries| - 1], '=');
      AssignedAreTexts(front);
      PutTexts(AssignAll(front), parts[0], Text.Join(parts[1..], '='));
    }
  }

  lemma CoerceTexts(json: Stringify, vars: Fields<Value>)
    requires AllTexts(vars)
    ensures CoerceAll(json, vars) == vars
  {
    forall k | 0 <= k < |vars|
      ensures Coerce(json, vars[k].0, vars[k].1) == vars[k].1
    {
    }
    CoerceAllAccepted(json, vars);
  }

  lemma ServiceCommutes(json: Stringify, s: Service, o: Options)
    ensures NormalizedService(json, MergedService(s, o)) == MergedService(NormalizedService(json, s), o)
  {
    var f := (key, v) => Coerce(json, key, v);
    var vars := AsMapping(s.environment);
    MapPutAll(vars, Texts(o.envVars), f);
    CoerceTexts(json, Texts(o.envVars));
    if s.environment.Assignments? {
      AssignedAreTexts(s.environment.entries);
      CoerceTexts(json, vars);
    }
  }

  /** It makes no difference whether the file is normalised before the merge or after it. */
  lemma MergeCommutes(json: Stringify, doc: Document, o: Options)
    requires Merged(doc, o).Some?
    ensures Merged(Normalized(json, doc), o) == Some(Normalized(json, Merged(doc, o).value))
  {
    var s := Get(doc.services, o.targetServiceName).value;
    var f := (name, s) => NormalizedService(json, s);
    GetMapped(doc.services, f, o.targetServiceName);
    MapPut(doc.services, f, o.targetServiceName, MergedService(s, o));
    ServiceCommutes(json, s, o);
  }

  /** What is deployed is ready for Swarm. */
  lemma DeployedIsReady(json: Stringify, doc: Document, o: Options)
    requires Merged(Normalized(json, doc), o).Some?
    ensures AllSwarmReady(Merged(Normalized(json, doc), o).value)
  {
    NormalizationIsExact(json, doc);
    NormalizationIsExact(json, Normalized(json, doc));
    MergeCommutes(json, Normalized(json, doc), o);
    NormalizationIsExact(json, Merged(Normalized(json, doc), o).value);
  }
}
