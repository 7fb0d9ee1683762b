/** UCI XML to instance tree and back (crates/oa-gateway-uci/src/xml.rs). */
module UciXml {
  import opened Wrappers
  import opened UciText
  import opened Primitive
  import opened UciSchema
  import opened UciFacets
  import opened UciInstance
  import opened XmlScan
  import opened XmlText

  const NAMESPACE := "https://www.vdl.afrl.af.mil/programs/oam"
  const XSI := "http://www.w3.org/2001/XMLSchema-instance"

  // ---- The parsed tree -----------------------------------------------------------------

  /** What the XML parser hands over: local names, the `xsi:type` attribute, children. */
  datatype XNode = XText(text: string) | XOther | XElement(name: string, xsiType: Option<string>, children: seq<XNode>)

  /** Local part of a qualified name: what follows the last `:`. */
  function LocalName(q: string): string
    decreases |q|
  {
    if ':' !in q then q else LocalName(q[1..])
  }

  function AttributeValue(attributes: seq<Attribute>, name: string): Option<string> {
    if attributes == [] then None
    else if attributes[0].name == name then Some(Resolve(Spaced(Eol(attributes[0].value))))
    else AttributeValue(attributes[1..], name)
  }

  /** Text joins the text that follows it; empty text is no node. */
  function Joined(text: string, rest: seq<XNode>): seq<XNode> {
    if rest != [] && rest[0].XText? then [XText(text + rest[0].text)] + rest[1..]
    else if text == [] then rest
    else [XText(text)] + rest
  }

  /** The parser's view of a spelled document, line ends normalized and references resolved,
      with `xsi` bound to the instance namespace. */
  function View(c: Content): XNode
    decreases c, 0
  {
    match c
    case CharData(text) => XText(Resolve(Eol(text)))
    case CData(text) => XText(Eol(text))
    case Comment(_) => XOther
    case Instruction(_) => XOther
    case Empty(tag) => XElement(LocalName(tag.name), AttributeValue(tag.attributes, "xsi:type"), [])
    case Element(tag, content, _) =>
      XElement(LocalName(tag.name), AttributeValue(tag.attributes, "xsi:type"), ViewAll(content))
  }

  function ViewAll(cs: seq<Content>): seq<XNode>
    decreases cs
  {
    if cs == [] then []
    else
      var v := View(cs[0]);
      if v.XText? then Joined(v.text, ViewAll(cs[1..])) else [v] + ViewAll(cs[1..])
  }

  // ---- What the parser refuses ---------------------------------------------------------

  /** `S? '=' S?` */
  predicate IsEq(s: string) {
    exists i :: 0 <= i < |s| && s[i] == '=' && AllSpace(s[..i]) && AllSpace(s[i + 1..])
  }

  predicate ProperAttribute(a: Attribute) {
    && a.space != [] && AllSpace(a.space) && IsQName(a.name) && IsEq(a.eq)
    && XmlChars(a.value) && '<' !in a.value && RefsOk(a.value)
  }

  predicate ProperTag(t: Tag) {
    && IsQName(t.name) && AllSpace(t.space)
    && (forall i :: 0 <= i < |t.attributes| ==> ProperAttribute(t.attributes[i]))
    && forall i, j :: 0 <= i < j < |t.attributes| ==> t.attributes[i].name != t.attributes[j].name
  }

  /** Beyond keeping markup apart: legal names, legal characters, legal references. */
  predicate Proper(c: Content)
    decreases c, 0
  {
    match c
    case CharData(text) => XmlChars(text) && RefsOk(text) && !Occurs(text, "]]>")
    case Comment(text) => XmlChars(text)
    case Instruction(text) => XmlChars(text)
    case CData(text) => XmlChars(text)
    case Empty(tag) => ProperTag(tag)
    case Element(tag, content, endSpace) => ProperTag(tag) && AllSpace(endSpace) && ProperAll(content)
  }

  predicate ProperAll(cs: seq<Content>)
    decreases cs
  {
    (forall i :: 0 <= i < |cs| ==> Proper(cs[i])) && Uncut(cs)
  }

  /** Character data told in several pieces is not cut between CR and LF. */
  predicate Uncut(cs: seq<Content>) {
    forall i :: 0 < i < |cs| && cs[i - 1].CharData? && cs[i].CharData? ==> !(EndsLine(cs[i - 1].text) && BeginsLine(cs[i].text))
  }

  predicate EndsLine(s: string) {
    s != [] && s[|s| - 1] == '\r'
  }

  predicate BeginsLine(s: string) {
    s != [] && s[0] == '\n'
  }

  /** What stands before the first `:` of a qualified name. */
  function PrefixOf(q: string): (r: Option<string>)
    ensures r.Some? <==> ':' in q
  {
    if q == [] then None
    else if q[0] == ':' then Some([])
    else
      var rest := PrefixOf(q[1..]);
      if rest.Some? then Some([q[0]] + rest.value) else None
  }

  /** Prefixes a tag binds. */
  function Binds(t: Tag): set<string> {
    set i | 0 <= i < |t.attributes| && "xmlns:" <= t.attributes[i].name :: t.attributes[i].name[6..]
  }

  predicate NameBound(q: string, scope: set<string>) {
    PrefixOf(q).Some? ==> PrefixOf(q).value in scope
  }

  /** Every prefix is bound where it is used (Namespaces in XML 1.0, section 5). */
  predicate Bound(c: Content, scope: set<string>)
    decreases c, 0
  {
    match c
    case Empty(tag) => TagBound(tag, scope + Binds(tag))
    case Element(tag, content, _) => TagBound(tag, scope + Binds(tag)) && forall i :: 0 <= i < |content| ==> Bound(content[i], scope + Binds(tag))
    case _ => true
  }

  predicate TagBound(t: Tag, scope: set<string>) {
    NameBound(t.name, scope) && forall i :: 0 <= i < |t.attributes| ==> NameBound(t.attributes[i].name, scope)
  }

  /** Prefixes that need no binding. */
  const RESERVED: set<string> := {"xml", "xmlns"}

  predicate Misc(c: Content) {
    Proper(c) && !c.CData? && (c.CharData? ==> AllSpace(c.text))
  }

  /** A superset of what `Document::parse` accepts, of documents without a DTD: targets of
      instructions are not looked at. What the writer spells is in order there as well. */
  predicate WellFormed(d: Document) {
    && SoundDocument(d) && Proper(d.root) && Bound(d.root, RESERVED)
    && (forall i :: 0 <= i < |d.prolog| ==> Misc(d.prolog[i]))
    && (forall i :: 0 <= i < |d.epilog| ==> Misc(d.epilog[i]))
  }

  /** `Node::text`: the first child, if it is text. */
  function TextOf(e: XNode): string {
    if e.XElement? && e.children != [] && e.children[0].XText? then e.children[0].text else ""
  }

  // ---- Reading -------------------------------------------------------------------------

  /** `parse_text`: the JSON shape the kind calls for, or the text as written. */
  function ParseText(p: Platform, kind: Kind, text: string): Simple {
    match kind
    case Boolean =>
      if text == "true" || text == "1" then Bool(true)
      else if text == "false" || text == "0" then Bool(false)
      else Str(text)
    case Integer(_, _) =>
      if ParseI64(text).Some? then Num(Int(ParseI64(text).value))
      else if ParseU64(text).Some? then Num(Int(ParseU64(text).value))
      else Str(text)
    case Real(_, _) =>
      var f := p.parseFloat(text);
      if f.Some? && Finite(f.value) then Num(Float(f.value)) else Str(text)
    case _ => Str(text)
  }

  function LeafKind(s: Schema, t: string): Kind {
    KindOf(Reduce(s, t, MAX_SIMPLE_DEPTH))
  }

  /** One child and what reading it gave. */
  datatype Child = Child(name: string, result: Result<Node, UciError>)

  /** Distinct names, in the order they first appear. */
  function Order(cs: seq<Child>): seq<string> {
    if cs == [] then []
    else
      var before, last := Order(cs[..|cs| - 1]), cs[|cs| - 1].name;
      if last in before then before else before + [last]
  }

  function Grouped(cs: seq<Child>, name: string): seq<Result<Node, UciError>> {
    if cs == [] then []
    else
      var before, last := Grouped(cs[..|cs| - 1], name), cs[|cs| - 1];
      if last.name == name then before + [last.result] else before
  }

  /** All results, or the first failure. */
  function Collect(rs: seq<Result<Node, UciError>>): Result<seq<Node>, UciError> {
    if rs == [] then Ok([])
    else
      match rs[0]
      case Err(e) => Err(e)
      case Ok(n) =>
        match Collect(rs[1..])
        case Err(e) => Err(e)
        case Ok(rest) => Ok([n] + rest)
  }

  /** A name that repeats, by declaration or in fact, is a `Many`. */
  function FieldFor(repeats: bool, nodes: seq<Node>): Field {
    if repeats || |nodes| != 1 then Many(nodes) else One(nodes[0])
  }

  function BuildFields(names: seq<string>, cs: seq<Child>, decls: seq<ElementDecl>): Result<seq<NamedField>, UciError> {
    if names == [] then Ok([])
    else
      match Collect(Grouped(cs, names[0]))
      case Err(e) => Err(e)
      case Ok(nodes) =>
        match BuildFields(names[1..], cs, decls)
        case Err(e) => Err(e)
        case Ok(rest) => Ok([NamedField(names[0], FieldFor(Repeats(decls, names[0]), nodes))] + rest)
  }

  /** `xsi:type` replaces the declared type if the schema has a complex type of that name. */
  function ReadType(s: Schema, xsi: Option<string>, t: string): string {
    if xsi.Some? && IsComplex(s, LocalName(xsi.value)) then LocalName(xsi.value) else t
  }

  /** `read_element`. */
  function ReadElement(p: Platform, s: Schema, e: XNode, t: string, depth: nat): Result<Node, UciError>
    requires e.XElement?
    decreases e, 0
  {
    if depth > MAX_DEPTH then Err(TooDeep)
    else if IsLeafType(s, t) then Ok(Leaf(ParseText(p, LeafKind(s, t), Trim(TextOf(e)))))
    else
      var actual := ReadType(s, e.xsiType, t);
      match Flatten(s, actual)
      case Err(err) => Err(FromSchema(err))
      case Ok(decls) =>
        var cs := ReadChildren(p, s, e.children, decls, depth + 1);
        match BuildFields(Order(cs), cs, decls)
        case Err(err) => Err(err)
        case Ok(fields) => Ok(Complex(Override(actual, t), fields))
  }

  function ReadChildren(p: Platform, s: Schema, children: seq<XNode>, decls: seq<ElementDecl>, depth: nat): seq<Child>
    decreases children
  {
    if children == [] then []
    else
      var first := children[0];
      if !first.XElement? then ReadChildren(p, s, children[1..], decls, depth)
      else [Child(first.name, ReadElement(p, s, first, ChildType(decls, first.name), depth))]
           + ReadChildren(p, s, children[1..], decls, depth)
  }

  /** `from_xml` after parsing. A root `xsi:type` stands in for the declared type. */
  function FromTree(p: Platform, s: Schema, root: XNode): Result<Message, UciError>
    requires root.XElement?
  {
    match GlobalType(s, root.name)
    case None => Err(UnknownElement(root.name))
    case Some(declared) =>
      match ReadElement(p, s, root, if root.xsiType.Some? then LocalName(root.xsiType.value) else declared, 0)
      case Ok(body) => Ok(Message(root.name, body))
      case Err(e) => Err(e)
  }

  /** `from_xml`: the depth scan comes before the parser. */
  function FromXml(p: Platform, s: Schema, d: Document): Result<Message, UciError> {
    if Exceeds(RenderDocument(d), 0, MAX_DEPTH) then Err(TooDeep)
    else if !WellFormed(d) then Err(Malformed)
    else FromTree(p, s, View(d.root))
  }

  // ---- Writing -------------------------------------------------------------------------

  /** `&`, `<` and `>` replaced by entities. */
  function EscapeXml(s: string): string {
    if s == [] then []
    else (if s[0] == '&' then "&amp;" else if s[0] == '<' then "&lt;" else if s[0] == '>' then "&gt;" else [s[0]])
         + EscapeXml(s[1..])
  }

  function Pad(depth: nat): string {
    if depth == 0 then "" else "  " + Pad(depth - 1)
  }

  function Attr(name: string, value: string): Attribute {
    Attribute(" ", name, "=", '"', value)
  }

  function RootAttributes(needXsi: bool): seq<Attribute> {
    [Attr("xmlns", NAMESPACE)] + if needXsi then [Attr("xmlns:xsi", XSI)] else []
  }

  function TypeAttributes(typeName: Option<string>, isRoot: bool): seq<Attribute> {
    if typeName.Some? then (if isRoot then RootAttributes(true) else [Attr("xmlns:xsi", XSI)]) + [Attr("xsi:type", typeName.value)]
    else if isRoot then RootAttributes(false) else []
  }

  /** A child on a line of its own. */
  function Line(c: Content, depth: nat): seq<Content> {
    [CharData(Pad(depth)), c, CharData("\n")]
  }

  /** The element `write_element` spells. */
  function ContentOf(p: Platform, s: Schema, name: string, n: Node, t: string, isRoot: bool, depth: nat): Result<Content, UciError>
    decreases n, 1
  {
    if depth > MAX_DEPTH then Err(TooDeep)
    else if n.Leaf? then
      Ok(Element(Tag(name, TypeAttributes(None, isRoot), ""), [CharData(EscapeXml(AsText(p, n.simple)))], ""))
    else if n.fields == [] then Ok(Empty(Tag(name, TypeAttributes(n.typeName, isRoot), "")))
    else
      match DeclsOf(s, ActualOf(n, t))
      case Err(e) => Err(e)
      case Ok(decls) =>
        match FieldsContent(p, s, n.fields, decls, depth + 1)
        case Err(e) => Err(e)
        case Ok(cs) =>
          Ok(Element(Tag(name, TypeAttributes(n.typeName, isRoot), ""), [CharData("\n")] + cs + [CharData(Pad(depth))], ""))
  }

  function FieldsContent(p: Platform, s: Schema, fields: seq<NamedField>, decls: seq<ElementDecl>, depth: nat): Result<seq<Content>, UciError>
    decreases fields
  {
    if fields == [] then Ok([])
    else
      match FieldContent(p, s, fields[0].name, fields[0].field, ChildType(decls, fields[0].name), depth)
      case Err(e) => Err(e)
      case Ok(cs) =>
        match FieldsContent(p, s, fields[1..], decls, depth)
        case Err(e) => Err(e)
        case Ok(rest) => Ok(cs + rest)
  }

  function FieldContent(p: Platform, s: Schema, name: string, f: Field, t: string, depth: nat): Result<seq<Content>, UciError>
    decreases f, 2
  {
    match f
    case One(n) =>
      (match ContentOf(p, s, name, n, t, false, depth)
       case Ok(c) => Ok(Line(c, depth))
       case Err(e) => Err(e))
    case Many(ns) => ItemsContent(p, s, name, ns, t, depth)
  }

  function ItemsContent(p: Platform, s: Schema, name: string, ns: seq<Node>, t: string, depth: nat): Result<seq<Content>, UciError>
    decreases ns
  {
    if ns == [] then Ok([])
    else
      match ContentOf(p, s, name, ns[0], t, false, depth)
      case Err(e) => Err(e)
      case Ok(c) =>
        match ItemsContent(p, s, name, ns[1..], t, depth)
        case Err(e) => Err(e)
        case Ok(rest) => Ok(Line(c, depth) + rest)
  }

  const DECLARATION := "xml version=\"1.0\" encoding=\"UTF-8\""

  /** `to_xml`, as the document whose text it writes. */
  function ToXml(p: Platform, s: Schema, m: Message): Result<Document, UciError> {
    var g := GlobalType(s, m.name);
    match ContentOf(p, s, m.name, m.body, if g.Some? then g.value else m.name, true, 0)
    case Ok(root) => Ok(Declared(root))
    case Err(e) => Err(e)
  }

  /** A root between the XML declaration and a final line end. */
  function Declared(root: Content): Document {
    Document([Instruction(DECLARATION), CharData("\n")], root, [CharData("\n")])
  }
}
