/** A compose file being prepared for Swarm: the passes mutate it in place, one after the other. */
module ComposeFile {
  import opened Fields
  import opened Optional
  import opened ComposeDocument
  import opened ComposeEnvironment
  import opened ComposeNormalize
  import opened ComposeValidate
  import opened ComposeMerge

  /** A service after the first pass. */
  function EnvironmentPass(json: Stringify, s: Service): Service {
    s.(environment := CoerceEnvironment(json, s.environment))
  }

  /** How the preparation of a stack ends: with errors, without its exposed service, or with a file to deploy. */
  datatype Prepared = Rejected(errors: seq<Error>) | NoSuchService | Ready(doc: Document)

  /** coerceBooleansInPlace: a loop over the fields of a mapping, going into mixins. */
  method CoerceBooleans(json: Stringify, obj: Value) returns (coerced: Value)
    requires obj.Mapping?
    ensures coerced == Coerce(json, MERGE_KEY, obj)
    decreases obj
  {
    var entries := obj.entries;
    for k := 0 to |entries|
      invariant |entries| == |obj.entries|
      invariant forall i | 0 <= i < k ::
          entries[i] == (obj.entries[i].0, Coerce(json, obj.entries[i].0, obj.entries[i].1))
      invariant forall i | k <= i < |entries| :: entries[i] == obj.entries[i]
    {
      var (key, value) := entries[k];
      if value.Flag? {
        entries := entries[k := (key, Str(if value.on then "true" else "false"))];
      } else if value.List? {
        entries := entries[k := (key, Str(json(value)))];
      } else if value.Mapping? {
        if key == MERGE_KEY {
          var inner := CoerceBooleans(json, obj.entries[k].1);
          entries := entries[k := (key, inner)];
        } else {
          entries := entries[k := (key, Str(json(value)))];
        }
      }
    }
    return Mapping(entries);
  }

  class ComposeFile {
    var otherKeys: seq<string>
    var services: Fields<Service>
    var networks: Fields<Value>
    var volumes: Fields<Value>

    function Doc(): Document
      reads this
    {
      Document(otherKeys, services, networks, volumes)
    }

    constructor (doc: Document)
      ensures Doc() == doc
    {
      otherKeys, services, networks, volumes := doc.otherKeys, doc.services, doc.networks, doc.volumes;
    }

    method NormalizeEnvironmentBooleans(json: Stringify)
      modifies `services
      ensures services == MapValues(old(services), (name, s) => EnvironmentPass(json, s))
    {
      for k := 0 to |services|
        invariant |services| == |old(services)|
        invariant forall i | 0 <= i < k ::
            services[i] == (old(services)[i].0, EnvironmentPass(json, old(services)[i].1))
        invariant forall i | k <= i < |services| :: services[i] == old(services)[i]
      {
        var (name, service) := services[k];
        if service.environment.Variables? {
          var coerced := CoerceBooleans(json, Mapping(service.environment.vars));
          services := services[k := (name, service.(environment := Variables(coerced.entries)))];
        }
      }
    }

    method NormalizeDependsOn()
      modifies `services
      ensures services == MapValues(old(services), (name, s: Service) => s.(dependsOn := NamesOnly(s.dependsOn)))
    {
      for k := 0 to |services|
        invariant |services| == |old(services)|
        invariant forall i | 0 <= i < k ::
                    && services[i].0 == old(services)[i].0
                    && services[i].1 == old(services)[i].1.(dependsOn := NamesOnly(old(services)[i].1.dependsOn))
        invariant forall i | k <= i < |services| :: services[i] == old(services)[i]
      {
        var (name, service) := services[k];
        if service.dependsOn.Some? && service.dependsOn.value.Mapping? {
          services := services[k := (name, service.(dependsOn := NamesOnly(service.dependsOn)))];
        }
      }
    }

    method StripPublishedPorts()
      modifies `services
      ensures services == MapValues(old(services), (name, s: Service) => s.(ports := None))
    {
      for k := 0 to |services|
        invariant |services| == |old(services)|
        invariant forall i | 0 <= i < k :: services[i] == (old(services)[i].0, old(services)[i].1.(ports := None))
        invariant forall i | k <= i < |services| :: services[i] == old(services)[i]
      {
        services := services[k := (services[k].0, services[k].1.(ports := None))];
      }
    }

    /** The three passes one after the other are the normalisation. */
    method NormalizeForSwarm(json: Stringify)
      modifies `services
      ensures Doc() == Normalized(json, old(Doc()))
    {
      NormalizeEnvironmentBooleans(json);
      NormalizeDependsOn();
      StripPublishedPorts();
      assert services == Normalized(json, old(Doc())).services;
    }

    /** False, and nothing changed, when the target is not a service of the file. */
    method MergeComposeConfig(o: Options) returns (found: bool)
      modifies `services, `networks
      ensures found <==> Has(old(services), o.targetServiceName)
      ensures if found then Merged(old(Doc()), o) == Some(Doc()) else Doc() == old(Doc())
    {
      var target := Get(services, o.targetServiceName);
      if target.None? { return false; }
      var service := target.value;
      var env := NormalizeEnvironment(service.environment);
      service := service.(environment := Variables(PutAll(env, Texts(o.envVars))));
      var hadNoExplicitNetworks := service.networks.Unset?;
      var names := Named(service.networks);
      assert names + [] == names;
      if hadNoExplicitNetworks { names := names + ["default"]; }
      if o.networkName !in names { names := names + [o.networkName]; }
      service := service.(networks := Names(names));
      services := Put(services, o.targetServiceName, service);
      networks := Put(networks, o.networkName, EXTERNAL);
      return true;
    }

    /**
     The order of deploy-compose: normalise, validate, find the exposed service, merge.
     A file is deployed exactly when it was safe to begin with and has the exposed service;
     what is deployed is safe, ready for Swarm, and the merge of the normalised file.
     */
    method Prepare(json: Stringify, exposed: Option<Options>) returns (result: Prepared)
      modifies this
      ensures result.Ready?
              <==> Safe(old(Doc())) && (exposed.Some? ==> Has(old(services), exposed.value.targetServiceName))
      ensures result.Rejected? <==> !Safe(old(Doc()))
      ensures result.Rejected? ==> result.errors == Errors(old(Doc()))
      ensures result.Ready? ==>
                && Some(result.doc) == (if exposed.Some? then Merged(Normalized(json, old(Doc())), exposed.value)
                                        else Some(Normalized(json, old(Doc()))))
                && Safe(result.doc) && AllSwarmReady(result.doc)
    {
      ghost var doc := Doc();
      NormalizeForSwarm(json);
      NormalizationKeepsErrors(json, doc);
      NormalizationIsExact(json, doc);
      ValidExactlyWhenSafe(doc);
      var errors := ValidateComposeSafety(Doc());
      if errors != [] { return Rejected(errors); }
      if exposed.Some? {
        GetMapped(doc.services, (name, s) => NormalizedService(json, s), exposed.value.targetServiceName);
        var found := MergeComposeConfig(exposed.value);
        if !found { return NoSuchService; }
        DeployedIsReady(json, doc, exposed.value);
        MergeKeepsErrors(Normalized(json, doc), exposed.value);
        ValidExactlyWhenSafe(Doc());
      }
      return Ready(Doc());
    }
  }
}
