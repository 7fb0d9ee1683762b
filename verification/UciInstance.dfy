/** The schema-annotated instance tree both serializations are read into
    (crates/oa-gateway-uci/src/instance.rs). */
module UciInstance {
  import opened Wrappers
  import opened UciText
  import opened Primitive
  import opened UciSchema

  const MAX_DEPTH: nat := 96

  /** A JSON number: an integer that fits 64 bits, or a finite double. */
  datatype Number = Int(n: int) | Float(f: F64)

  datatype Simple = Str(s: string) | Bool(b: bool) | Num(number: Number)

  datatype Node = Leaf(simple: Simple) | Complex(typeName: Option<string>, fields: seq<NamedField>)

  datatype NamedField = NamedField(name: string, field: Field)

  datatype Field = One(node: Node) | Many(nodes: seq<Node>)

  datatype Message = Message(name: string, body: Node)

  datatype UciError =
    | NotAnObject
    | NotOneMember
    | UnknownElement(name: string)
    | NoSuchType(name: string)
    | Cyclic(chain: seq<string>)
    | CannotMap
    | TooDeep
    | Malformed

  function FromSchema(e: SchemaError): UciError {
    match e
    case UnknownType(name) => NoSuchType(name)
    case CyclicChain(chain) => Cyclic(chain)
  }

  function ShowNumber(p: Platform, n: Number): string {
    match n
    case Int(i) => Show(i)
    case Float(f) => p.printFloat(f)
  }

  /** How a leaf is spelled, in a document and to the checks. */
  function AsText(p: Platform, s: Simple): string {
    match s
    case Str(text) => text
    case Bool(b) => if b then "true" else "false"
    case Num(n) => ShowNumber(p, n)
  }

  /** First declaration named `name`. */
  function FindDecl(decls: seq<ElementDecl>, name: string): (r: Option<ElementDecl>)
    ensures r.Some? ==> r.value in decls && r.value.name == name
    ensures r.None? ==> forall i :: 0 <= i < |decls| ==> decls[i].name != name
  {
    if decls == [] then None
    else if decls[0].name == name then Some(decls[0])
    else FindDecl(decls[1..], name)
  }

  /** Declared type of a child; an undeclared one is carried as a string. */
  function ChildType(decls: seq<ElementDecl>, name: string): string {
    var d := FindDecl(decls, name);
    if d.Some? then d.value.typeName else "xs:string"
  }

  predicate Repeats(decls: seq<ElementDecl>, name: string) {
    var d := FindDecl(decls, name);
    d.Some? && IsArray(d.value.maxOccurs)
  }

  /** Carried as text rather than as child elements. */
  predicate IsLeafType(s: Schema, t: string) {
    IsSimple(s, t) || !IsComplex(s, t)
  }

  /** A type is recorded only when it differs from the declared one. */
  function Override(actual: string, t: string): Option<string> {
    if actual == t then None else Some(actual)
  }

  function ActualOf(n: Node, t: string): string
    requires n.Complex?
  {
    if n.typeName.Some? then n.typeName.value else t
  }

  /** Declarations a written node is checked against; an unknown type has none. */
  function DeclsOf(s: Schema, actual: string): Result<seq<ElementDecl>, UciError> {
    if !IsComplex(s, actual) then Ok([])
    else
      match Flatten(s, actual)
      case Ok(decls) => Ok(decls)
      case Err(e) => Err(FromSchema(e))
  }
}
