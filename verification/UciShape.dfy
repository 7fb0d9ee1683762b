/** What a reader can produce, and what XML keeps of it. */
module UciShape {
  import opened Wrappers
  import opened UciText
  import opened Primitive
  import opened UciSchema
  import opened UciInstance
  import opened XmlScan
  import opened XmlText
  import opened UciXml

  // ---- Trees that follow their schema's shape ------------------------------------------

  predicate DistinctNames(fields: seq<NamedField>) {
    forall i, j :: 0 <= i < j < |fields| ==> fields[i].name != fields[j].name
  }

  /** Leaves stand where leaf types are declared, overrides name usable types, and a name is
      a `Many` when it repeats. Both readers produce only such trees. */
  predicate Shaped(s: Schema, n: Node, t: string)
    decreases n
  {
    match n
    case Leaf(_) => IsLeafType(s, t)
    case Complex(typeName, fields) =>
      var actual := ActualOf(n, t);
      && !IsLeafType(s, t)
      && IsComplex(s, actual)
      && (typeName.Some? ==> typeName.value != t)
      && Flatten(s, actual).Ok?
      && DistinctNames(fields)
      && var decls := Flatten(s, actual).value;
         forall i :: 0 <= i < |fields| ==>
           ShapedField(s, fields[i].field, ChildType(decls, fields[i].name), Repeats(decls, fields[i].name))
  }

  predicate ShapedField(s: Schema, f: Field, t: string, repeats: bool)
    decreases f
  {
    match f
    case One(n) => !repeats && Shaped(s, n, t)
    case Many(ns) => (repeats || |ns| > 1) && forall i :: 0 <= i < |ns| ==> Shaped(s, ns[i], t)
  }

  /** A name without a prefix, as Namespaces in XML 1.0 spells it (`NCName`). */
  predicate SafeName(name: string) {
    IsNcName(name)
  }

  /** Names that XML can spell: what `write_element` copies into tags unescaped. */
  predicate SafeNode(n: Node)
    decreases n
  {
    match n
    case Leaf(_) => true
    case Complex(typeName, fields) =>
      && (typeName.Some? ==> SafeName(typeName.value))
      && forall i :: 0 <= i < |fields| ==> SafeName(fields[i].name) && SafeField(fields[i].field)
  }

  predicate SafeField(f: Field)
    decreases f
  {
    match f
    case One(n) => SafeNode(n)
    case Many(ns) => forall i :: 0 <= i < |ns| ==> SafeNode(ns[i])
  }

  /** Every leaf's text is made of characters XML allows. */
  predicate Spellable(p: Platform, n: Node)
    decreases n
  {
    match n
    case Leaf(x) => XmlChars(AsText(p, x))
    case Complex(_, fields) => forall i :: 0 <= i < |fields| ==> SpellableField(p, fields[i].field)
  }

  predicate SpellableField(p: Platform, f: Field)
    decreases f
  {
    match f
    case One(n) => Spellable(p, n)
    case Many(ns) => forall i :: 0 <= i < |ns| ==> Spellable(p, ns[i])
  }

  function Larger(a: nat, b: nat): nat {
    if a > b then a else b
  }

  /** Levels of elements the tree is written as. */
  function NodeHeight(n: Node): nat
    decreases n, 1
  {
    match n
    case Leaf(_) => 1
    case Complex(_, fields) => 1 + FieldsHeight(fields)
  }

  function FieldsHeight(fields: seq<NamedField>): nat
    decreases fields
  {
    if fields == [] then 0 else Larger(FieldHeight(fields[0].field), FieldsHeight(fields[1..]))
  }

  function FieldHeight(f: Field): nat
    decreases f, 2
  {
    match f
    case One(n) => NodeHeight(n)
    case Many(ns) => ItemsHeight(ns)
  }

  function ItemsHeight(ns: seq<Node>): nat
    decreases ns
  {
    if ns == [] then 0 else Larger(NodeHeight(ns[0]), ItemsHeight(ns[1..]))
  }

  // ---- What XML keeps ------------------------------------------------------------------

  /** A leaf after its text has been through XML: line ends normalized, trimmed, re-read. */
  function Carried(p: Platform, s: Schema, leaf: Simple, t: string): Simple {
    ParseText(p, LeafKind(s, t), Trim(Eol(AsText(p, leaf))))
  }

  /** The tree XML carries: leaves re-read from their text, empty repetitions gone. */
  function Normal(p: Platform, s: Schema, n: Node, t: string): Node
    decreases n, 1
  {
    match n
    case Leaf(x) => Leaf(Carried(p, s, x, t))
    case Complex(typeName, fields) =>
      var decls := DeclsOf(s, ActualOf(n, t));
      Complex(typeName, NormalFields(p, s, fields, if decls.Ok? then decls.value else []))
  }

  function NormalFields(p: Platform, s: Schema, fields: seq<NamedField>, decls: seq<ElementDecl>): seq<NamedField>
    decreases fields
  {
    if fields == [] then []
    else
      var rest := NormalFields(p, s, fields[1..], decls);
      if fields[0].field == Many([]) then rest
      else [NamedField(fields[0].name, NormalField(p, s, fields[0].field, ChildType(decls, fields[0].name)))] + rest
  }

  function NormalField(p: Platform, s: Schema, f: Field, t: string): Field
    decreases f, 2
  {
    match f
    case One(n) => One(Normal(p, s, n, t))
    case Many(ns) => Many(NormalItems(p, s, ns, t))
  }

  function NormalItems(p: Platform, s: Schema, ns: seq<Node>, t: string): (r: seq<Node>)
    ensures |r| == |ns|
    decreases ns
  {
    if ns == [] then [] else [Normal(p, s, ns[0], t)] + NormalItems(p, s, ns[1..], t)
  }

  // ---- The written document is XML -----------------------------------------------------

  lemma {:induction false} EscapeIsText(s: string)
    ensures '<' !in EscapeXml(s) && '>' !in EscapeXml(s)
  {
    if s != [] { EscapeIsText(s[1..]); }
  }

  /** A character as `escape` writes it. */
  function EscapeChar(c: char): string {
    if c == '&' then "&amp;" else if c == '<' then "&lt;" else if c == '>' then "&gt;" else [c]
  }

  /** References undo the escape, whatever the text. */
  lemma {:induction false} ResolveOfEscape(s: string)
    ensures Resolve(EscapeXml(s)) == s && RefsOk(EscapeXml(s))
    ensures XmlChars(EscapeXml(s)) <==> XmlChars(s)
  {
    if s != [] {
      ResolveOfEscape(s[1..]);
      ResolveMore(s[0], s[1..]);
      assert s == [s[0]] + s[1..];
    }
  }

  lemma ResolveMore(c: char, t: string)
    requires Resolve(EscapeXml(t)) == t && RefsOk(EscapeXml(t)) && (XmlChars(EscapeXml(t)) <==> XmlChars(t))
    ensures Resolve(EscapeXml([c] + t)) == [c] + t && RefsOk(EscapeXml([c] + t))
    ensures XmlChars(EscapeXml([c] + t)) <==> XmlChars([c] + t)
  {
    EscapeCons(c, t);
    ResolveHead(c, EscapeXml(t));
    CharsSplit(EscapeChar(c), EscapeXml(t));
    CharsSplit([c], t);
  }

  lemma CharsSplit(a: string, b: string)
    ensures XmlChars(a + b) <==> XmlChars(a) && XmlChars(b)
  {
    assert forall i :: 0 <= i < |a| ==> (a + b)[i] == a[i];
    assert forall i :: 0 <= i < |b| ==> (a + b)[|a| + i] == b[i];
  }

  lemma ResolveHead(c: char, rest: string)
    ensures Resolve(EscapeChar(c) + rest) == [c] + Resolve(rest)
    ensures RefsOk(EscapeChar(c) + rest) <==> RefsOk(rest)
    ensures XmlChars(EscapeChar(c)) <==> XmlChars([c])
  {
    var text := EscapeChar(c) + rest;
    if c == '&' {
      assert text[0] == '&' && text[5..] == rest;
      assert Reference(text) == Some(Ref(5, '&'));
    } else if c == '<' {
      assert text[0] == '&' && text[1] == 'l' && text[4..] == rest;
      assert Reference(text) == Some(Ref(4, '<'));
    } else if c == '>' {
      assert text[0] == '&' && text[1] == 'g' && text[4..] == rest;
      assert Reference(text) == Some(Ref(4, '>'));
    } else {
      assert text[0] == c && text[1..] == rest;
    }
  }

  lemma EscapeCons(c: char, t: string)
    ensures EscapeXml([c] + t) == EscapeChar(c) + EscapeXml(t)
  {
    assert ([c] + t)[1..] == t;
  }

  lemma EolReturn(t: string)
    ensures Eol(['\r'] + t) == if t != [] && t[0] == '\n' then ['\n'] + Eol(t[1..]) else ['\n'] + Eol(t)
  {
    var s := ['\r'] + t;
    assert s[1..] == t;
    if t != [] { assert s[1] == t[0] && s[2..] == t[1..]; }
  }

  /** Escaping leaves line ends where they are. */
  lemma {:induction false} EolOfEscape(s: string)
    ensures Eol(EscapeXml(s)) == EscapeXml(Eol(s))
  {
    if s != [] {
      var c, t := s[0], s[1..];
      assert s == [c] + t;
      EolOfEscape(t);
      if c != '\r' {
        EolOfOther(c, t);
      } else if t != [] && t[0] == '\n' {
        EolOfEscape(t[1..]);
        assert t == ['\n'] + t[1..];
        EolOfPair(t[1..]);
      } else {
        EolOfReturn(t);
      }
    }
  }

  lemma EolOfOther(c: char, t: string)
    requires c != '\r' && Eol(EscapeXml(t)) == EscapeXml(Eol(t))
    ensures Eol(EscapeXml([c] + t)) == EscapeXml(Eol([c] + t))
  {
    EscapeCons(c, t);
    EolPlain(EscapeChar(c), EscapeXml(t));
    EolPlain([c], t);
    EscapeCons(c, Eol(t));
  }

  lemma EolOfReturn(t: string)
    requires Eol(EscapeXml(t)) == EscapeXml(Eol(t)) && (t != [] ==> t[0] != '\n')
    ensures Eol(EscapeXml(['\r'] + t)) == EscapeXml(Eol(['\r'] + t))
  {
    EscapeCons('\r', t);
    EolReturn(t);
    FirstEscaped(t);
    EolReturn(EscapeXml(t));
    EscapeCons('\n', Eol(t));
  }

  lemma EolOfPair(t: string)
    requires Eol(EscapeXml(t)) == EscapeXml(Eol(t))
    ensures Eol(EscapeXml(['\r'] + (['\n'] + t))) == EscapeXml(Eol(['\r'] + (['\n'] + t)))
  {
    EscapeCons('\r', ['\n'] + t);
    EscapeCons('\n', t);
    EolReturn(['\n'] + t);
    EolReturn(['\n'] + EscapeXml(t));
    assert (['\n'] + t)[1..] == t && (['\n'] + EscapeXml(t))[1..] == EscapeXml(t);
    EscapeCons('\n', Eol(t));
  }

  lemma FirstEscaped(s: string)
    ensures s != [] ==> EscapeXml(s) != [] && (EscapeXml(s)[0] == '\n' <==> s[0] == '\n')
    ensures s != [] && s[0] == '\n' ==> EscapeXml(s) == ['\n'] + EscapeXml(s[1..])
    ensures s == [] ==> EscapeXml(s) == []
  {
  }

  lemma {:induction false} EolPlain(a: string, rest: string)
    requires '\r' !in a
    ensures Eol(a + rest) == a + Eol(rest)
  {
    if a == [] {
      assert a + rest == rest;
    } else {
      assert (a + rest)[1..] == a[1..] + rest;
      EolPlain(a[1..], rest);
    }
  }

  lemma {:induction false} PadIsText(depth: nat)
    ensures '<' !in Pad(depth)
  {
    if depth > 0 { PadIsText(depth - 1); }
  }

  lemma NamespacesAreQuotable()
    ensures '"' !in NAMESPACE && '"' !in XSI
  {
  }

  lemma SoundAttr(name: string, value: string)
    requires Plain(name) && '"' !in value
    ensures SoundAttribute(Attr(name, value))
  {
  }

  lemma SafeIsName(name: string)
    requires SafeName(name)
    ensures IsName(name) && ':' !in name && '&' !in name
  {
    NcNameIsTame(name);
  }

  lemma AttributesAreSound(typeName: Option<string>, isRoot: bool)
    requires typeName.Some? ==> SafeName(typeName.value)
    ensures var attrs := TypeAttributes(typeName, isRoot);
            forall i :: 0 <= i < |attrs| ==> SoundAttribute(attrs[i])
  {
    NamespacesAreQuotable();
    SoundAttr("xmlns", NAMESPACE);
    SoundAttr("xmlns:xsi", XSI);
    if typeName.Some? {
      var tn := typeName.value;
      NcNameIsTame(tn);
      assert forall i :: 0 <= i < |tn| ==> tn[i] != '"';
      SoundAttr("xsi:type", tn);
    }
  }

  lemma {:induction false} SoundAppend(a: seq<Content>, b: seq<Content>)
    requires SoundAll(a) && SoundAll(b)
    ensures SoundAll(a + b) && MaxHeight(a + b) == Larger(MaxHeight(a), MaxHeight(b))
  {
    MaxHeightAppend(a, b);
  }

  lemma LineIsSound(c: Content, depth: nat)
    requires Sound(c)
    ensures SoundAll(Line(c, depth)) && MaxHeight(Line(c, depth)) == Height(c)
  {
    PadIsText(depth);
    var line := Line(c, depth);
    assert line[1..] == [c, CharData("\n")] && line[1..][1..] == [CharData("\n")];
    FlatHeight(line[1..][1..]);
  }

  /** What a tree is written as is sound XML with as many levels as the tree. */
  lemma {:induction false} ContentIsSound(p: Platform, s: Schema, name: string, n: Node, t: string, isRoot: bool, depth: nat)
    requires SafeName(name) && SafeNode(n) && ContentOf(p, s, name, n, t, isRoot, depth).Ok?
    ensures var c := ContentOf(p, s, name, n, t, isRoot, depth).value;
            Sound(c) && (c.Element? || c.Empty?) && Height(c) == NodeHeight(n)
    decreases n, 1
  {
    SafeIsName(name);
    if n.Leaf? {
      LeafIsSound(name, TypeAttributes(None, isRoot), AsText(p, n.simple), isRoot);
    } else {
      AttributesAreSound(n.typeName, isRoot);
      if n.fields != [] {
        var decls := DeclsOf(s, ActualOf(n, t)).value;
        FieldsAreSound(p, s, n.fields, decls, depth + 1);
        LinesAreSound(FieldsContent(p, s, n.fields, decls, depth + 1).value, depth);
      }
    }
  }

  lemma LeafIsSound(name: string, attributes: seq<Attribute>, text: string, isRoot: bool)
    requires IsName(name) && attributes == TypeAttributes(None, isRoot)
    ensures var c := Element(Tag(name, attributes, ""), [CharData(EscapeXml(text))], "");
            Sound(c) && Height(c) == 1
  {
    AttributesAreSound(None, isRoot);
    EscapeIsText(text);
    FlatHeight([CharData(EscapeXml(text))]);
  }

  /** Content on lines of its own, between a line end and the end tag's indentation. */
  lemma LinesAreSound(cs: seq<Content>, depth: nat)
    requires SoundAll(cs)
    ensures var all := [CharData("\n")] + cs + [CharData(Pad(depth))];
            SoundAll(all) && MaxHeight(all) == MaxHeight(cs)
  {
    PadIsText(depth);
    var before, after := [CharData("\n")], [CharData(Pad(depth))];
    FlatHeight(before);
    FlatHeight(after);
    SoundAppend(before, cs);
    SoundAppend(before + cs, after);
  }

  lemma {:induction false} FieldsAreSound(p: Platform, s: Schema, fields: seq<NamedField>, decls: seq<ElementDecl>, depth: nat)
    requires forall i :: 0 <= i < |fields| ==> SafeName(fields[i].name) && SafeField(fields[i].field)
    requires FieldsContent(p, s, fields, decls, depth).Ok?
    ensures var cs := FieldsContent(p, s, fields, decls, depth).value;
            SoundAll(cs) && MaxHeight(cs) == FieldsHeight(fields)
    decreases fields
  {
    if fields != [] {
      assert forall i :: 0 <= i < |fields[1..]| ==> fields[1..][i] == fields[i + 1];
      var f, t := fields[0], ChildType(decls, fields[0].name);
      FieldIsSound(p, s, f.name, f.field, t, depth);
      FieldsAreSound(p, s, fields[1..], decls, depth);
      SoundAppend(FieldContent(p, s, f.name, f.field, t, depth).value, FieldsContent(p, s, fields[1..], decls, depth).value);
    }
  }

  lemma {:induction false} FieldIsSound(p: Platform, s: Schema, name: string, f: Field, t: string, depth: nat)
    requires SafeName(name) && SafeField(f) && FieldContent(p, s, name, f, t, depth).Ok?
    ensures var cs := FieldContent(p, s, name, f, t, depth).value;
            SoundAll(cs) && MaxHeight(cs) == FieldHeight(f)
    decreases f, 2
  {
    match f
    case One(n) =>
      ContentIsSound(p, s, name, n, t, false, depth);
      LineIsSound(ContentOf(p, s, name, n, t, false, depth).value, depth);
    case Many(ns) =>
      ItemsAreSound(p, s, name, ns, t, depth);
  }

  lemma {:induction false} ItemsAreSound(p: Platform, s: Schema, name: string, ns: seq<Node>, t: string, depth: nat)
    requires SafeName(name) && (forall i :: 0 <= i < |ns| ==> SafeNode(ns[i]))
    requires ItemsContent(p, s, name, ns, t, depth).Ok?
    ensures var cs := ItemsContent(p, s, name, ns, t, depth).value;
            SoundAll(cs) && MaxHeight(cs) == ItemsHeight(ns)
    decreases ns
  {
    if ns != [] {
      assert forall i :: 0 <= i < |ns[1..]| ==> ns[1..][i] == ns[i + 1];
      ContentIsSound(p, s, name, ns[0], t, false, depth);
      ItemsAreSound(p, s, name, ns[1..], t, depth);
      var c := ContentOf(p, s, name, ns[0], t, false, depth).value;
      LineIsSound(c, depth);
      SoundAppend(Line(c, depth), ItemsContent(p, s, name, ns[1..], t, depth).value);
    }
  }

  lemma {:induction false} NoOccurrence(text: string, part: string)
    requires part != [] && part[0] !in text
    ensures !Occurs(text, part)
  {
    forall i: nat | i <= |text|
      ensures !OccursAt(text, part, i)
    {
      if i < |text| { assert text[i..][0] == text[i] && text[i] in text; }
    }
  }

  lemma DeclaredIsSound(root: Content)
    requires Sound(root) && (root.Element? || root.Empty?)
    ensures SoundDocument(Declared(root)) && Depth(Declared(root)) == Height(root)
  {
    NoOccurrence(DECLARATION, "?>");
    var d := Declared(root);
    assert Sound(d.prolog[0]) && Sound(d.prolog[1]);
  }

  /** What `to_xml` writes is a sound document, so the scanner counts it exactly: its text is
      refused at `limit` just when the message has more levels than that. */
  lemma WrittenIsSound(p: Platform, s: Schema, m: Message, d: Document, limit: nat)
    requires SafeName(m.name) && SafeNode(m.body) && ToXml(p, s, m) == Ok(d)
    ensures SoundDocument(d) && Depth(d) == NodeHeight(m.body)
    ensures Exceeds(RenderDocument(d), 0, limit) <==> NodeHeight(m.body) > limit
  {
    var g := GlobalType(s, m.name);
    ContentIsSound(p, s, m.name, m.body, if g.Some? then g.value else m.name, true, 0);
    DeclaredIsSound(d.root);
    ScanIsExact(d, limit);
  }

  // ---- When writing succeeds -----------------------------------------------------------

  /** A shaped tree can be written exactly when it is not too tall. */
  lemma {:induction false} WritesByHeight(p: Platform, s: Schema, name: string, n: Node, t: string, isRoot: bool, depth: nat)
    requires Shaped(s, n, t)
    ensures ContentOf(p, s, name, n, t, isRoot, depth).Ok? <==> depth + NodeHeight(n) <= MAX_DEPTH + 1
    ensures ContentOf(p, s, name, n, t, isRoot, depth).Err? ==> ContentOf(p, s, name, n, t, isRoot, depth).error == TooDeep
    decreases n, 1
  {
    if n.Complex? && n.fields != [] && depth <= MAX_DEPTH {
      var decls := Flatten(s, ActualOf(n, t)).value;
      FieldsByHeight(p, s, n.fields, decls, depth + 1);
    }
  }

  lemma {:induction false} FieldsByHeight(p: Platform, s: Schema, fields: seq<NamedField>, decls: seq<ElementDecl>, depth: nat)
    requires forall i :: 0 <= i < |fields| ==>
      ShapedField(s, fields[i].field, ChildType(decls, fields[i].name), Repeats(decls, fields[i].name))
    requires depth <= MAX_DEPTH + 1
    ensures var r := FieldsContent(p, s, fields, decls, depth);
            (r.Ok? <==> depth + FieldsHeight(fields) <= MAX_DEPTH + 1) && (r.Err? ==> r.error == TooDeep)
    decreases fields
  {
    if fields != [] {
      assert forall i :: 0 <= i < |fields[1..]| ==> fields[1..][i] == fields[i + 1];
      FieldsByHeight(p, s, fields[1..], decls, depth);
      var f, t := fields[0], ChildType(decls, fields[0].name);
      assert ShapedField(s, fields[0].field, t, Repeats(decls, fields[0].name));
      match f.field
      case One(n) => WritesByHeight(p, s, f.name, n, t, false, depth);
      case Many(ns) => ItemsByHeight(p, s, f.name, ns, t, depth);
    }
  }

  lemma {:induction false} ItemsByHeight(p: Platform, s: Schema, name: string, ns: seq<Node>, t: string, depth: nat)
    requires (forall i :: 0 <= i < |ns| ==> Shaped(s, ns[i], t)) && depth <= MAX_DEPTH + 1
    ensures var r := ItemsContent(p, s, name, ns, t, depth);
            (r.Ok? <==> depth + ItemsHeight(ns) <= MAX_DEPTH + 1) && (r.Err? ==> r.error == TooDeep)
    decreases ns
  {
    if ns != [] {
      assert forall i :: 0 <= i < |ns[1..]| ==> ns[1..][i] == ns[i + 1];
      WritesByHeight(p, s, name, ns[0], t, false, depth);
      ItemsByHeight(p, s, name, ns[1..], t, depth);
    }
  }
}
