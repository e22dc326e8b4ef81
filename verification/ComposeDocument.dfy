/** A parsed compose file, as a tree. */
module ComposeDocument {
  import opened Fields
  import opened Optional

  /** A YAML value; `Scalar` is one that is no string, boolean or null (a number, a date). */
  datatype Value =
    | Null
    | Flag(on: bool)
    | Scalar(literal: string)
    | Str(text: string)
    | List(items: seq<Value>)
    | Mapping(entries: Fields<Value>)

  datatype VolumeEntry =
    | Short(text: string)
    | Long(kind: Option<string>, source: Option<string>, target: Option<string>)

  /** `environment:`, as a list of assignments, as a mapping, or empty. */
  datatype Environment = NoEnvironment | Assignments(entries: seq<string>) | Variables(vars: Fields<Value>)

  /** `networks:` of a service; `Empty` is the key without a value. */
  datatype Networks = Unset | Empty | Names(names: seq<string>) | Settings(settings: Fields<Value>)

  datatype Service = Service(
    privileged: bool,
    networkMode: Option<string>,
    capAdd: seq<string>,
    volumes: seq<VolumeEntry>,
    environment: Environment,
    networks: Networks,
    dependsOn: Option<Value>,
    ports: Option<Value>,
    others: Fields<Value>)

  /** `otherKeys` are the top-level keys besides the three below; a missing section is the same as an empty one. */
  datatype Document = Document(
    otherKeys: seq<string>,
    services: Fields<Service>,
    networks: Fields<Value>,
    volumes: Fields<Value>)
}
