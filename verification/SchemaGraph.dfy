/** The workflow schema as the conformance audit reads it: named definitions whose fields point at
    further names. */
module SchemaGraph {
  import opened Common

  /** A specification: a bare name, an object whose `type` may be a string, or any other JSON value. */
  datatype Spec = Text(text: string) | Object(typ: Option<string>) | Other

  datatype ContextField = Contexts(values: seq<string>) | NotAStringList
  datatype OneOfField = Alternatives(specs: seq<Spec>) | NotAList
  datatype Property = Property(key: string, spec: Spec)
  datatype PropertiesField = Properties(entries: seq<Property>) | NotAnObject
  datatype MappingField = Mapping(properties: PropertiesField, loose: Option<Spec>) | NotAMapping
  datatype SequenceField = SequenceOf(item: Spec) | MalformedSequence

  /** One definition. `scalars` are its keys among string, number, boolean, null and any. */
  datatype Definition = Definition(
    scalars: set<string>,
    context: Option<ContextField>,
    oneOf: Option<OneOfField>,
    mapping: Option<MappingField>,
    sequence: Option<SequenceField>)

  type Schema = map<string, Definition>

  datatype AuditError =
    | MalformedSpec
    | UnknownDefinition(name: string)
    | NoRecognizedType(name: string)
    | MalformedField(name: string)

  const PRIMITIVE_KINDS: set<string> := {"string", "number", "boolean", "null", "any", "sequence", "mapping"}

  function NamedSpec(spec: Spec): Option<string> {
    match spec
    case Text(name) => Some(name)
    case Object(typ) => typ
    case Other => None
  }

  predicate HasKey(node: Definition, kind: string) {
    if kind == "mapping" then node.mapping.Some?
    else if kind == "sequence" then node.sequence.Some?
    else kind in node.scalars
  }

  /** The kinds a definition declares itself, one-of alternatives aside. */
  function OwnKinds(node: Definition): set<string> {
    set kind | kind in PRIMITIVE_KINDS && HasKey(node, kind)
  }

  /** A name the walkers look up, as opposed to a primitive kind. */
  predicate IsDefinition(defs: Schema, name: string) {
    name !in PRIMITIVE_KINDS && name in defs
  }

  function Members(stack: seq<string>): set<string> {
    set name | name in stack
  }
}
