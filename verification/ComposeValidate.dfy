/** The safety validation of a compose file. */
module ComposeValidate {
  import opened Fields
  import opened Optional
  import opened ComposeDocument
  import opened Selection
  import opened Text

  const ALLOWED_TOP_LEVEL_KEYS: set<string> := {"version", "name", "services", "networks", "volumes"}
  const ALLOWED_CAP_ADD: set<string> := {"NET_BIND_SERVICE", "CHOWN", "SETUID", "SETGID"}

  /** The error messages, by what they say. */
  datatype Error =
    | KeyNotAllowed(key: string)
    | NoServices
    | IsPrivileged(service: string)
    | UsesHostNetwork(service: string)
    | CapabilityNotAllowed(service: string, cap: string)
    | HostOrUndeclaredVolume(service: string, entry: VolumeEntry)

  predicate StartsWith(s: string, c: char) {
    s != "" && s[0] == c
  }

  predicate IsHostBindMount(entry: VolumeEntry, declared: set<string>) {
    match entry
    case Short(text) =>
      var source := Split(text, ':')[0];
      if StartsWith(source, '/') || StartsWith(source, '.') || StartsWith(source, '~') then true
      else source !in declared
    case Long(kind, source, _) =>
      if kind == Some("bind") then true
      else if kind == Some("volume") || kind == None then
        if source == None || source == Some("") then false else source.value !in declared
      else true
  }

  predicate KeyAllowed(key: string) {
    key in ALLOWED_TOP_LEVEL_KEYS || "x-" <= key
  }

  function KeyErrors(keys: seq<string>): (errors: seq<Error>) {
    if keys == [] then []
    else KeyErrors(keys[..|keys| - 1])
         + (if KeyAllowed(keys[|keys| - 1]) then [] else [KeyNotAllowed(keys[|keys| - 1])])
  }

  function CapErrors(service: string, caps: seq<string>): (errors: seq<Error>) {
    if caps == [] then []
    else CapErrors(service, caps[..|caps| - 1])
         + (if caps[|caps| - 1] in ALLOWED_CAP_ADD then [] else [CapabilityNotAllowed(service, caps[|caps| - 1])])
  }

  function VolumeErrors(service: string, entries: seq<VolumeEntry>, declared: set<string>): (errors: seq<Error>) {
    if entries == [] then []
    else
      var last := entries[|entries| - 1];
      VolumeErrors(service, entries[..|entries| - 1], declared)
      + (if IsHostBindMount(last, declared) then [HostOrUndeclaredVolume(service, last)] else [])
  }

  function ServiceErrors(name: string, s: Service, declared: set<string>): (errors: seq<Error>) {
    (if s.privileged then [IsPrivileged(name)] else [])
    + (if s.networkMode == Some("host") then [UsesHostNetwork(name)] else [])
    + CapErrors(name, s.capAdd)
    + VolumeErrors(name, s.volumes, declared)
  }

  function AllServiceErrors(services: Fields<Service>, declared: set<string>): (errors: seq<Error>) {
    if services == [] then []
    else
      var (name, s) := services[|services| - 1];
      AllServiceErrors(services[..|services| - 1], declared) + ServiceErrors(name, s, declared)
  }

  function Declared(doc: Document): set<string> {
    set key <- Keys(doc.volumes)
  }

  function Errors(doc: Document): (errors: seq<Error>) {
    KeyErrors(doc.otherKeys)
    + (if doc.services == [] then [NoServices] else [])
    + AllServiceErrors(doc.services, Declared(doc))
  }

  // ------------------------------------------------------------------
  // What a document without errors looks like
  // ------------------------------------------------------------------

  /** A short volume entry up to its first colon. */
  function SourceOf(text: string): string {
    var k := IndexOf(text, ':');
    if k == -1 then text else text[..k]
  }

  /** A volume that stays inside Docker: anonymous, or named and declared. */
  predicate StaysInside(entry: VolumeEntry, declared: set<string>) {
    match entry
    case Short(text) =>
      && SourceOf(text) in declared
      && !StartsWith(text, '/') && !StartsWith(text, '.') && !StartsWith(text, '~')
    case Long(kind, source, _) =>
      && (kind == None || kind == Some("volume"))
      && (source == None || source.value == "" || source.value in declared)
  }

  predicate SafeService(s: Service, declared: set<string>) {
    && !s.privileged
    && s.networkMode != Some("host")
    && (forall cap <- s.capAdd :: cap in ALLOWED_CAP_ADD)
    && (forall entry <- s.volumes :: StaysInside(entry, declared))
  }

  predicate Safe(doc: Document) {
    && (forall key <- doc.otherKeys :: KeyAllowed(key))
    && doc.services != []
    && (forall field <- doc.services :: SafeService(field.1, Declared(doc)))
  }

  lemma FirstPart(text: string)
    ensures Split(text, ':')[0] == SourceOf(text)
  {
    var k := IndexOf(text, ':');
    if k == -1 {
      SplitWhole(text, ':');
    } else {
      assert text == text[..k] + [':'] + text[k + 1..];
      SplitFirst(text[..k], text[k + 1..], ':');
    }
  }

  lemma BindMountExactly(entry: VolumeEntry, declared: set<string>)
    ensures IsHostBindMount(entry, declared) <==> !StaysInside(entry, declared)
  {
    if entry.Short? { FirstPart(entry.text); }
  }

  lemma {:induction false} NoKeyErrors(keys: seq<string>)
    ensures KeyErrors(keys) == [] <==> forall key <- keys :: KeyAllowed(key)
  {
    if keys != [] {
      NoKeyErrors(keys[..|keys| - 1]);
      assert keys == keys[..|keys| - 1] + [keys[|keys| - 1]];
    }
  }

  lemma {:induction false} NoCapErrors(service: string, caps: seq<string>)
    ensures CapErrors(service, caps) == [] <==> forall cap <- caps :: cap in ALLOWED_CAP_ADD
  {
    if caps != [] {
      NoCapErrors(service, caps[..|caps| - 1]);
      assert caps == caps[..|caps| - 1] + [caps[|caps| - 1]];
    }
  }

  lemma {:induction false} NoVolumeErrors(service: string, entries: seq<VolumeEntry>, declared: set<string>)
    ensures VolumeErrors(service, entries, declared) == [] <==> forall entry <- entries :: StaysInside(entry, declared)
  {
    if entries != [] {
      NoVolumeErrors(service, entries[..|entries| - 1], declared);
      BindMountExactly(entries[|entries| - 1], declared);
      assert entries == entries[..|entries| - 1] + [entries[|entries| - 1]];
    }
  }

  lemma {:induction false} NoServiceErrors(services: Fields<Service>, declared: set<string>)
    ensures AllServiceErrors(services, declared) == [] <==> forall field <- services :: SafeService(field.1, declared)
  {
    if services != [] {
      var front, last := services[..|services| - 1], services[|services| - 1];
      NoServiceErrors(front, declared);
      NoErrorsOf(last.0, last.1, declared);
      assert services == front + [last];
    }
  }

  lemma NoErrorsOf(name: string, s: Service, declared: set<string>)
    ensures ServiceErrors(name, s, declared) == [] <==> SafeService(s, declared)
  {
    NoCapErrors(name, s.capAdd);
    NoVolumeErrors(name, s.volumes, declared);
  }

  /** A document passes the validation if and only if it is safe. */
  lemma ValidExactlyWhenSafe(doc: Document)
    ensures Errors(doc) == [] <==> Safe(doc)
  {
    NoKeyErrors(doc.otherKeys);
    NoServiceErrors(doc.services, Declared(doc));
  }

  // ------------------------------------------------------------------
  // Which errors a document gets, and in which order
  // ------------------------------------------------------------------

  function KeyError(key: string): Option<Error> {
    if KeyAllowed(key) then None else Some(KeyNotAllowed(key))
  }

  function CapError(service: string): string -> Option<Error> {
    (cap: string) => if cap in ALLOWED_CAP_ADD then None else Some(CapabilityNotAllowed(service, cap))
  }

  function VolumeError(service: string, declared: set<string>): VolumeEntry -> Option<Error> {
    (entry: VolumeEntry) =>
      if StaysInside(entry, declared) then None else Some(HostOrUndeclaredVolume(service, entry))
  }

  /** One error for every key that is not allowed, in the order of the file. */
  lemma {:induction false} KeyErrorsInOrder(keys: seq<string>)
    ensures Selects(keys, KeyError, KeyErrors(keys))
  {
    if keys == [] {
      SelectsNone<string, Error>(KeyError);
    } else {
      KeyErrorsInOrder(keys[..|keys| - 1]);
      SelectsLast(keys, KeyError, KeyErrors(keys), KeyErrors(keys[..|keys| - 1]));
    }
  }

  /** One for every capability that is not allowed. */
  lemma {:induction false} CapErrorsInOrder(service: string, caps: seq<string>)
    ensures Selects(caps, CapError(service), CapErrors(service, caps))
  {
    if caps == [] {
      SelectsNone(CapError(service));
    } else {
      CapErrorsInOrder(service, caps[..|caps| - 1]);
      SelectsLast(caps, CapError(service), CapErrors(service, caps), CapErrors(service, caps[..|caps| - 1]));
    }
  }

  /** And one for every volume entry that leaves Docker's own volumes. */
  lemma {:induction false} VolumeErrorsInOrder(service: string, entries: seq<VolumeEntry>, declared: set<string>)
    ensures Selects(entries, VolumeError(service, declared), VolumeErrors(service, entries, declared))
  {
    if entries == [] {
      SelectsNone(VolumeError(service, declared));
    } else {
      var front := entries[..|entries| - 1];
      VolumeErrorsInOrder(service, front, declared);
      BindMountExactly(entries[|entries| - 1], declared);
      SelectsLast(entries, VolumeError(service, declared), VolumeErrors(service, entries, declared),
                  VolumeErrors(service, front, declared));
    }
  }

  /** The services are checked one after the other, each by itself. */
  lemma {:induction false} ServicesInOrder(a: Fields<Service>, b: Fields<Service>, declared: set<string>)
    ensures AllServiceErrors(a + b, declared) == AllServiceErrors(a, declared) + AllServiceErrors(b, declared)
  {
    if b == [] {
      assert a + b == a;
    } else {
      var front, last := b[..|b| - 1], b[|b| - 1];
      ServicesInOrder(a, front, declared);
      SameEnd(a, b);
      Regroup(AllServiceErrors(a, declared), AllServiceErrors(front, declared),
              ServiceErrors(last.0, last.1, declared));
    }
  }

  lemma SameEnd(a: Fields<Service>, b: Fields<Service>)
    requires b != []
    ensures a + b != [] && (a + b)[..|a + b| - 1] == a + b[..|b| - 1] && (a + b)[|a + b| - 1] == b[|b| - 1]
  {
  }

  lemma Regroup(a: seq<Error>, b: seq<Error>, c: seq<Error>)
    ensures a + b + c == a + (b + c)
  {
  }

  /** What a service gets an error for. */
  predicate IsErrorOf(e: Error, name: string, s: Service, declared: set<string>) {
    match e
    case IsPrivileged(service) => service == name && s.privileged
    case UsesHostNetwork(service) => service == name && s.networkMode == Some("host")
    case CapabilityNotAllowed(service, cap) => service == name && cap in s.capAdd && cap !in ALLOWED_CAP_ADD
    case HostOrUndeclaredVolume(service, entry) =>
      service == name && entry in s.volumes && !StaysInside(entry, declared)
    case _ => false
  }

  predicate IsErrorOfSome(e: Error, services: Fields<Service>, declared: set<string>) {
    exists field <- services :: IsErrorOf(e, field.0, field.1, declared)
  }

  lemma {:induction false} KeyErrorsAre(keys: seq<string>, e: Error)
    ensures e in KeyErrors(keys) <==> e.KeyNotAllowed? && e.key in keys && !KeyAllowed(e.key)
  {
    if keys != [] {
      KeyErrorsAre(keys[..|keys| - 1], e);
      assert keys == keys[..|keys| - 1] + [keys[|keys| - 1]];
    }
  }

  lemma {:induction false} CapErrorsAre(service: string, caps: seq<string>, e: Error)
    ensures e in CapErrors(service, caps)
            <==> e.CapabilityNotAllowed? && e.service == service && e.cap in caps && e.cap !in ALLOWED_CAP_ADD
  {
    if caps != [] {
      CapErrorsAre(service, caps[..|caps| - 1], e);
      assert caps == caps[..|caps| - 1] + [caps[|caps| - 1]];
    }
  }

  lemma {:induction false} VolumeErrorsAre(service: string, entries: seq<VolumeEntry>, declared: set<string>, e: Error)
    ensures e in VolumeErrors(service, entries, declared)
            <==> e.HostOrUndeclaredVolume? && e.service == service && e.entry in entries
                 && !StaysInside(e.entry, declared)
  {
    if entries != [] {
      VolumeErrorsAre(service, entries[..|entries| - 1], declared, e);
      BindMountExactly(entries[|entries| - 1], declared);
      assert entries == entries[..|entries| - 1] + [entries[|entries| - 1]];
    }
  }

  lemma ServiceErrorsAre(name: string, s: Service, declared: set<string>, e: Error)
    ensures e in ServiceErrors(name, s, declared) <==> IsErrorOf(e, name, s, declared)
  {
    CapErrorsAre(name, s.capAdd, e);
    VolumeErrorsAre(name, s.volumes, declared, e);
  }

  lemma {:induction false} AllServiceErrorsAre(services: Fields<Service>, declared: set<string>, e: Error)
    ensures e in AllServiceErrors(services, declared) <==> IsErrorOfSome(e, services, declared)
  {
    if services != [] {
      var front, last := services[..|services| - 1], services[|services| - 1];
      AllServiceErrorsAre(front, declared, e);
      ServiceErrorsAre(last.0, last.1, declared, e);
      OneMoreSource(services, e, declared);
    }
  }

  lemma OneMoreSource(services: Fields<Service>, e: Error, declared: set<string>)
    requires services != []
    ensures var front, last := services[..|services| - 1], services[|services| - 1];
            IsErrorOfSome(e, services, declared)
            <==> IsErrorOfSome(e, front, declared) || IsErrorOf(e, last.0, last.1, declared)
  {
    assert services == services[..|services| - 1] + [services[|services| - 1]];
  }

  /** The declared volumes are the keys of the top-level `volumes:`. */
  lemma DeclaredExactly(doc: Document, volume: string)
    ensures volume in Declared(doc) <==> Has(doc.volumes, volume)
  {
    HasKey(doc.volumes, volume);
  }

  /** A document gets exactly the errors it deserves. */
  lemma ErrorsAreDeserved(doc: Document, e: Error)
    ensures e in Errors(doc)
            <==> match e
                 case KeyNotAllowed(key) => key in doc.otherKeys && !KeyAllowed(key)
                 case NoServices => doc.services == []
                 case _ => IsErrorOfSome(e, doc.services, Declared(doc))
  {
    KeyErrorsAre(doc.otherKeys, e);
    AllServiceErrorsAre(doc.services, Declared(doc), e);
  }

  // ------------------------------------------------------------------
  // The code
  // ------------------------------------------------------------------

  method ValidateComposeSafety(doc: Document) returns (errors: seq<Error>)
    ensures errors == Errors(doc)
    ensures errors == [] <==> Safe(doc)
  {
    errors := ValidateKeys(doc.otherKeys);
    var declared := Declared(doc);
    if doc.services == [] {
      errors := errors + [NoServices];
    }
    var found := ValidateServices(doc.services, declared);
    errors := errors + found;
    ValidExactlyWhenSafe(doc);
  }

  /** The loop over the top-level keys. */
  method ValidateKeys(keys: seq<string>) returns (errors: seq<Error>)
    ensures errors == KeyErrors(keys)
  {
    errors := [];
    for k := 0 to |keys|
      invariant errors == KeyErrors(keys[..k])
    {
      assert keys[..k + 1][..k] == keys[..k];
      if keys[k] !in ALLOWED_TOP_LEVEL_KEYS && !("x-" <= keys[k]) {
        errors := errors + [KeyNotAllowed(keys[k])];
      }
    }
    assert keys[..|keys|] == keys;
  }

  /** The loop over the services. */
  method ValidateServices(services: Fields<Service>, declared: set<string>) returns (errors: seq<Error>)
    ensures errors == AllServiceErrors(services, declared)
  {
    errors := [];
    for k := 0 to |services|
      invariant errors == AllServiceErrors(services[..k], declared)
    {
      assert services[..k + 1][..k] == services[..k];
      var found := ValidateService(services[k].0, services[k].1, declared);
      errors := errors + found;
    }
    assert services[..|services|] == services;
  }

  /** The body of the loop over the services. */
  method ValidateService(name: string, s: Service, declared: set<string>) returns (errors: seq<Error>)
    ensures errors == ServiceErrors(name, s, declared)
  {
    errors := [];
    if s.privileged {
      errors := errors + [IsPrivileged(name)];
    }
    if s.networkMode == Some("host") {
      errors := errors + [UsesHostNetwork(name)];
    }
    ghost var before := errors;
    for k := 0 to |s.capAdd|
      invariant errors == before + CapErrors(name, s.capAdd[..k])
    {
      assert s.capAdd[..k + 1][..k] == s.capAdd[..k];
      if s.capAdd[k] !in ALLOWED_CAP_ADD {
        errors := errors + [CapabilityNotAllowed(name, s.capAdd[k])];
      }
    }
    assert s.capAdd[..|s.capAdd|] == s.capAdd;
    before := errors;
    for k := 0 to |s.volumes|
      invariant errors == before + VolumeErrors(name, s.volumes[..k], declared)
    {
      assert s.volumes[..k + 1][..k] == s.volumes[..k];
      if IsHostBindMount(s.volumes[k], declared) {
        errors := errors + [HostOrUndeclaredVolume(name, s.volumes[k])];
      }
    }
    assert s.volumes[..|s.volumes|] == s.volumes;
  }
}
