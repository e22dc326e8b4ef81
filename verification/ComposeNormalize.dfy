/** The passes that make a compose file acceptable to Swarm; `json` stands for JSON.stringify. */
module ComposeNormalize {
  import opened Fields
  import opened Optional
  import opened ComposeDocument

  type Stringify = Value -> string

  const MERGE_KEY := "<<"

  function Coerce(json: Stringify, key: string, v: Value): (w: Value)
    decreases v
  {
    match v
    case Flag(on) => Str(if on then "true" else "false")
    case List(_) => Str(json(v))
    case Mapping(entries) =>
      if key == MERGE_KEY
      then Mapping(seq(|entries|, i requires 0 <= i < |entries| =>
        (entries[i].0, Coerce(json, entries[i].0, entries[i].1))))
      else Str(json(v))
    case _ => v
  }

  /** Swarm takes strings, numbers and nulls, and mappings of those as a mixin. */
  predicate Accepted(key: string, v: Value)
    decreases v
  {
    match v
    case Flag(_) => false
    case List(_) => false
    case Mapping(entries) =>
      key == MERGE_KEY && forall i | 0 <= i < |entries| :: Accepted(entries[i].0, entries[i].1)
    case _ => true
  }

  /**
   The text a value stands for; nothing for null.  A list or a mapping can only have come from a default that
   looks like JSON, so it stands for its JSON text: that is the meaning the source gives it, not one found here.
   */
  function Rendered(json: Stringify, v: Value): (text: Option<string>) {
    match v
    case Null => None
    case Flag(on) => Some(if on then "true" else "false")
    case Scalar(literal) => Some(literal)
    case Str(text) => Some(text)
    case _ => Some(json(v))
  }

  /** Do both values mean the same in an environment? */
  predicate Same(json: Stringify, key: string, v: Value, w: Value)
    decreases v
  {
    if key == MERGE_KEY && v.Mapping? then
      && w.Mapping? && |v.entries| == |w.entries|
      && forall i | 0 <= i < |v.entries| ::
           v.entries[i].0 == w.entries[i].0 && Same(json, v.entries[i].0, v.entries[i].1, w.entries[i].1)
    else !(key == MERGE_KEY && w.Mapping?) && Rendered(json, v) == Rendered(json, w)
  }

  /** Coercing keeps the text of every value, at any depth of mixins, and leaves only what Swarm takes. */
  lemma {:induction false} CoerceKeepsMeaning(json: Stringify, key: string, v: Value)
    ensures Same(json, key, v, Coerce(json, key, v)) && Accepted(key, Coerce(json, key, v))
    decreases v
  {
    if v.Mapping? && key == MERGE_KEY {
      forall i | 0 <= i < |v.entries|
        ensures Same(json, v.entries[i].0, v.entries[i].1, Coerce(json, v.entries[i].0, v.entries[i].1))
        ensures Accepted(v.entries[i].0, Coerce(json, v.entries[i].0, v.entries[i].1))
      {
        CoerceKeepsMeaning(json, v.entries[i].0, v.entries[i].1);
      }
    }
  }

  /** It changes exactly the values Swarm would refuse. */
  lemma {:induction false} CoerceChangesOnlyRefused(json: Stringify, key: string, v: Value)
    ensures Coerce(json, key, v) == v <==> Accepted(key, v)
    decreases v
  {
    if v.Mapping? && key == MERGE_KEY {
      forall i | 0 <= i < |v.entries|
        ensures Coerce(json, v.entries[i].0, v.entries[i].1) == v.entries[i].1
                <==> Accepted(v.entries[i].0, v.entries[i].1)
      {
        CoerceChangesOnlyRefused(json, v.entries[i].0, v.entries[i].1);
      }
      var w := Coerce(json, key, v);
      assert Accepted(key, v) ==> w.entries == v.entries;
      assert w == v ==> forall i | 0 <= i < |v.entries| :: w.entries[i] == v.entries[i];
    }
  }

  // ------------------------------------------------------------------
  // The three passes over one service
  // ------------------------------------------------------------------

  function CoerceAll(json: Stringify, vars: Fields<Value>): (coerced: Fields<Value>)
    ensures coerced == MapValues(vars, (key, v) => Coerce(json, key, v))
  {
    Coerce(json, MERGE_KEY, Mapping(vars)).entries
  }

  function CoerceEnvironment(json: Stringify, env: Environment): Environment {
    if env.Variables? then Variables(CoerceAll(json, env.vars)) else env
  }

  /** The long form of depends_on is reduced to the names. */
  function NamesOnly(dependsOn: Option<Value>): Option<Value> {
    if dependsOn.Some? && dependsOn.value.Mapping?
    then Some(List(AsTexts(Keys(dependsOn.value.entries))))
    else dependsOn
  }

  function AsTexts(names: seq<string>): (texts: seq<Value>) {
    seq(|names|, i requires 0 <= i < |names| => Str(names[i]))
  }

  function NormalizedService(json: Stringify, s: Service): Service {
    s.(environment := CoerceEnvironment(json, s.environment), dependsOn := NamesOnly(s.dependsOn), ports := None)
  }

  function Normalized(json: Stringify, doc: Document): (d: Document) {
    doc.(services := MapValues(doc.services, (name, s) => NormalizedService(json, s)))
  }

  /** What Swarm takes: no refused environment value, no conditions in depends_on, no published ports. */
  predicate SwarmReady(s: Service) {
    && (s.environment.Variables? ==>
          forall i | 0 <= i < |s.environment.vars| :: Accepted(s.environment.vars[i].0, s.environment.vars[i].1))
    && (s.dependsOn.Some? ==> !s.dependsOn.value.Mapping?)
    && s.ports.None?
  }

  lemma CoerceAllAccepted(json: Stringify, vars: Fields<Value>)
    ensures CoerceAll(json, vars) == vars <==> forall i | 0 <= i < |vars| :: Accepted(vars[i].0, vars[i].1)
    ensures forall i | 0 <= i < |vars| :: Accepted(CoerceAll(json, vars)[i].0, CoerceAll(json, vars)[i].1)
  {
    var coerced := CoerceAll(json, vars);
    forall i | 0 <= i < |vars|
      ensures Accepted(coerced[i].0, coerced[i].1)
      ensures coerced[i] == vars[i] <==> Accepted(vars[i].0, vars[i].1)
    {
      CoerceKeepsMeaning(json, vars[i].0, vars[i].1);
      CoerceChangesOnlyRefused(json, vars[i].0, vars[i].1);
    }
    if forall i | 0 <= i < |vars| :: Accepted(vars[i].0, vars[i].1) {
      assert forall i | 0 <= i < |vars| :: coerced[i] == vars[i];
    }
  }

  /** Normalising makes a service ready for Swarm and changes no service that is. */
  lemma ServiceNormalization(json: Stringify, s: Service)
    ensures SwarmReady(NormalizedService(json, s))
    ensures NormalizedService(json, s) == s <==> SwarmReady(s)
  {
    if s.environment.Variables? { CoerceAllAccepted(json, s.environment.vars); }
  }

  predicate AllSwarmReady(doc: Document) {
    forall k | 0 <= k < |doc.services| :: SwarmReady(doc.services[k].1)
  }

  /** The same for documents: the fixed points of the normalisation are the documents ready for Swarm. */
  lemma NormalizationIsExact(json: Stringify, doc: Document)
    ensures AllSwarmReady(Normalized(json, doc))
    ensures Normalized(json, doc) == doc <==> AllSwarmReady(doc)
  {
    var d := Normalized(json, doc);
    forall k | 0 <= k < |doc.services|
      ensures SwarmReady(d.services[k].1)
      ensures d.services[k] == doc.services[k] <==> SwarmReady(doc.services[k].1)
    {
      ServiceNormalization(json, doc.services[k].1);
    }
    if AllSwarmReady(doc) {
      assert d.services == doc.services;
    }
  }

  // ------------------------------------------------------------------
  // What the normalisation keeps
  // ------------------------------------------------------------------

  /** The long form of depends_on becomes the list of its names, none left out and in their order; others stay. */
  lemma DependenciesAreKept(json: Stringify, s: Service)
    ensures var after := NormalizedService(json, s).dependsOn;
            if s.dependsOn.Some? && s.dependsOn.value.Mapping? then
              var entries := s.dependsOn.value.entries;
              && after.Some? && after.value.List? && |after.value.items| == |entries|
              && forall k | 0 <= k < |entries| :: after.value.items[k] == Str(entries[k].0)
            else after == s.dependsOn
  {
    if s.dependsOn.Some? && s.dependsOn.value.Mapping? { KeysInOrder(s.dependsOn.value.entries); }
  }

  /** The same variables in the same order, each with the same meaning; the list form stays as it is. */
  predicate SameVariables(json: Stringify, before: Environment, after: Environment) {
    if before.Variables? then
      && after.Variables? && |after.vars| == |before.vars|
      && forall i | 0 <= i < |before.vars| ::
           after.vars[i].0 == before.vars[i].0 && Same(json, before.vars[i].0, before.vars[i].1, after.vars[i].1)
    else after == before
  }

  /** Nothing but the environment, depends_on and the ports. */
  predicate SameRest(s: Service, t: Service) {
    && t.privileged == s.privileged && t.networkMode == s.networkMode && t.capAdd == s.capAdd
    && t.volumes == s.volumes && t.networks == s.networks && t.others == s.others
  }

  lemma VariablesAreKept(json: Stringify, s: Service)
    ensures SameVariables(json, s.environment, NormalizedService(json, s).environment)
  {
    if s.environment.Variables? {
      var vars, after := s.environment.vars, NormalizedService(json, s).environment.vars;
      forall i | 0 <= i < |vars|
        ensures after[i].0 == vars[i].0 && Same(json, vars[i].0, vars[i].1, after[i].1)
      {
        CoerceKeepsMeaning(json, vars[i].0, vars[i].1);
      }
    }
  }

  /** Service by service the normalisation keeps the variables and everything it is not about. */
  lemma NormalizationKeepsTheRest(json: Stringify, doc: Document)
    ensures var d := Normalized(json, doc);
            && d.otherKeys == doc.otherKeys && d.networks == doc.networks && d.volumes == doc.volumes
            && |d.services| == |doc.services|
            && forall k | 0 <= k < |doc.services| ::
                 && d.services[k].0 == doc.services[k].0 && SameRest(doc.services[k].1, d.services[k].1)
                 && SameVariables(json, doc.services[k].1.environment, d.services[k].1.environment)
  {
    forall k | 0 <= k < |doc.services|
      ensures SameVariables(json, doc.services[k].1.environment, Normalized(json, doc).services[k].1.environment)
    {
      VariablesAreKept(json, doc.services[k].1);
    }
  }
}
