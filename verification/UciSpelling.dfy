/** Which trees are written as documents that a parser accepts. */
module UciSpelling {
  import opened Wrappers
  import opened Primitive
  import opened UciSchema
  import opened UciInstance
  import opened XmlScan
  import opened XmlText
  import opened UciXml
  import opened UciShape
  import UciNamespaces

  // ---- Tags ----------------------------------------------------------------------------

  /** Nothing an attribute value would have to escape. */
  predicate PlainValue(s: string) {
    forall i :: 0 <= i < |s| ==> IsCharCode(s[i] as int) && s[i] != '<' && s[i] != '&'
  }

  lemma NamespaceIsPlain()
    ensures PlainValue(NAMESPACE)
  {
    var host, path := "https://www.vdl.afrl.af.mil/", "programs/oam";
    assert NAMESPACE == host + path;
    assert PlainValue(host) && PlainValue(path);
  }

  lemma XsiIsPlain()
    ensures PlainValue(XSI)
  {
    var host, path := "http://www.w3.org/2001/", "XMLSchema-instance";
    assert XSI == host + path;
    assert PlainValue(host) && PlainValue(path);
  }

  lemma ProperAttr(name: string, value: string)
    requires IsQName(name) && PlainValue(value)
    ensures ProperAttribute(Attr(name, value))
  {
    ResolveOfPlain(value);
    var eq := "=";
    assert eq[0] == '=' && eq[..0] == [] && eq[1..] == [];
  }

  lemma AttributeNames()
    ensures IsQName("xmlns") && IsQName("xmlns:xsi") && IsQName("xsi:type")
  {
    var a, b := "xmlns:xsi", "xsi:type";
    assert IsNcName("xmlns") && IsNcName("xsi") && IsNcName("type");
    assert a[5] == ':' && a[..5] == "xmlns" && a[6..] == "xsi";
    assert b[3] == ':' && b[..3] == "xsi" && b[4..] == "type";
  }

  lemma NamesDiffer()
    ensures Attr("xmlns", NAMESPACE).name != Attr("xmlns:xsi", XSI).name
    ensures forall v :: Attr("xsi:type", v).name != "xmlns" && Attr("xsi:type", v).name != "xmlns:xsi"
  {
    assert |"xmlns"| == 5 && |"xmlns:xsi"| == 9 && |"xsi:type"| == 8;
  }

  lemma TagsOf(name: string, x: Attribute, y: Attribute, z: Attribute)
    requires IsQName(name) && ProperAttribute(x) && ProperAttribute(y)
    requires x.name != y.name && z.name != x.name && z.name != y.name
    ensures ProperTag(Tag(name, [], "")) && ProperTag(Tag(name, [x], ""))
    ensures ProperAttribute(z) ==> ProperTag(Tag(name, [y, z], "")) && ProperTag(Tag(name, [x, y, z], ""))
  {
  }

  lemma ConstantAttributes()
    ensures ProperAttribute(Attr("xmlns", NAMESPACE)) && ProperAttribute(Attr("xmlns:xsi", XSI)) && IsQName("xsi:type")
  {
    NamespaceIsPlain();
    XsiIsPlain();
    AttributeNames();
    ProperAttr("xmlns", NAMESPACE);
    ProperAttr("xmlns:xsi", XSI);
  }

  lemma WrittenTag(name: string, typeName: Option<string>, isRoot: bool)
    requires SafeName(name) && (typeName.Some? ==> SafeName(typeName.value))
    ensures ProperTag(Tag(name, TypeAttributes(typeName, isRoot), ""))
  {
    var tn := if typeName.Some? then typeName.value else "";
    ConstantAttributes();
    NamesDiffer();
    UciNamespaces.AttributeLists(tn);
    if typeName.Some? {
      NcNameIsTame(tn);
      ProperAttr("xsi:type", tn);
    }
    TagsOf(name, Attr("xmlns", NAMESPACE), Attr("xmlns:xsi", XSI), Attr("xsi:type", tn));
  }

  // ---- Content -------------------------------------------------------------------------

  predicate EachProper(cs: seq<Content>) {
    forall i :: 0 <= i < |cs| ==> Proper(cs[i])
  }

  /** Nothing that could be cut between CR and LF. */
  predicate NoReturnText(cs: seq<Content>) {
    forall i :: 0 <= i < |cs| && cs[i].CharData? ==> '\r' !in cs[i].text
  }

  lemma NoReturnIsUncut(cs: seq<Content>)
    requires NoReturnText(cs)
    ensures Uncut(cs)
  {
    forall i | 0 <= i < |cs| && cs[i].CharData? ensures !EndsLine(cs[i].text) {
      assert '\r' !in cs[i].text;
    }
  }

  lemma ProperAppend(a: seq<Content>, b: seq<Content>)
    ensures EachProper(a + b) <==> EachProper(a) && EachProper(b)
    ensures NoReturnText(a) && NoReturnText(b) ==> NoReturnText(a + b)
  {
    assert forall i :: 0 <= i < |a| ==> (a + b)[i] == a[i];
    assert forall i :: 0 <= i < |b| ==> (a + b)[|a| + i] == b[i];
  }

  lemma NoBracketEnd(text: string)
    requires '>' !in text
    ensures !Occurs(text, "]]>")
  {
    var end := "]]>";
    forall i: nat | i <= |text| ensures !OccursAt(text, end, i) {
      if i + 2 < |text| { assert text[i..][2] == text[i + 2] && text[i + 2] in text && end[2] == '>'; }
    }
  }

  /** Space between elements. */
  lemma SpaceIsProper(text: string)
    requires forall i :: 0 <= i < |text| ==> text[i] == ' ' || text[i] == '\n'
    ensures Proper(CharData(text)) && '\r' !in text
  {
    ResolveOfPlain(text);
    NoBracketEnd(text);
  }

  lemma {:induction false} PadIsSpace(depth: nat)
    ensures forall i :: 0 <= i < |Pad(depth)| ==> Pad(depth)[i] == ' '
  {
    if depth > 0 { PadIsSpace(depth - 1); }
  }

  lemma LineIsProper(c: Content, depth: nat)
    requires !c.CharData?
    ensures EachProper(Line(c, depth)) <==> Proper(c)
    ensures NoReturnText(Line(c, depth))
  {
    PadIsSpace(depth);
    SpaceIsProper(Pad(depth));
    SpaceIsProper("\n");
    var line := Line(c, depth);
    assert line[0] == CharData(Pad(depth)) && line[1] == c && line[2] == CharData("\n");
  }

  lemma LeafIsProper(tag: Tag, text: string)
    requires ProperTag(tag)
    ensures Proper(Element(tag, [CharData(EscapeXml(text))], "")) <==> XmlChars(text)
  {
    ResolveOfEscape(text);
    EscapeIsText(text);
    NoBracketEnd(EscapeXml(text));
    var cs := [CharData(EscapeXml(text))];
    assert ProperAll(cs) <==> Proper(cs[0]);
  }

  lemma ElementIsProper(tag: Tag, cs: seq<Content>, depth: nat)
    requires ProperTag(tag) && NoReturnText(cs)
    ensures Proper(Element(tag, [CharData("\n")] + cs + [CharData(Pad(depth))], "")) <==> EachProper(cs)
  {
    var first, last := [CharData("\n")], [CharData(Pad(depth))];
    PadIsSpace(depth);
    SpaceIsProper(Pad(depth));
    SpaceIsProper("\n");
    ProperAppend(first, cs);
    ProperAppend(first + cs, last);
    NoReturnIsUncut(first + cs + last);
  }

  /** A tree with spellable names is written as proper XML exactly when its leaves hold only
      characters XML allows. */
  lemma {:induction false} ContentIsProper(p: Platform, s: Schema, name: string, n: Node, t: string, isRoot: bool, depth: nat)
    requires SafeName(name) && SafeNode(n) && ContentOf(p, s, name, n, t, isRoot, depth).Ok?
    ensures var c := ContentOf(p, s, name, n, t, isRoot, depth).value;
            !c.CharData? && (Proper(c) <==> Spellable(p, n))
    decreases n, 1
  {
    if n.Leaf? {
      WrittenTag(name, None, isRoot);
      LeafIsProper(Tag(name, TypeAttributes(None, isRoot), ""), AsText(p, n.simple));
    } else {
      WrittenTag(name, n.typeName, isRoot);
      if n.fields != [] {
        var decls := DeclsOf(s, ActualOf(n, t)).value;
        FieldsAreProper(p, s, n.fields, decls, depth + 1);
        ElementIsProper(Tag(name, TypeAttributes(n.typeName, isRoot), ""), FieldsContent(p, s, n.fields, decls, depth + 1).value, depth);
      }
    }
  }

  predicate SpellableFields(p: Platform, fields: seq<NamedField>) {
    forall i :: 0 <= i < |fields| ==> SpellableField(p, fields[i].field)
  }

  predicate SpellableAll(p: Platform, ns: seq<Node>) {
    forall i :: 0 <= i < |ns| ==> Spellable(p, ns[i])
  }

  lemma {:induction false} FieldsAreProper(p: Platform, s: Schema, fields: seq<NamedField>, decls: seq<ElementDecl>, depth: nat)
    requires forall i :: 0 <= i < |fields| ==> SafeName(fields[i].name) && SafeField(fields[i].field)
    requires FieldsContent(p, s, fields, decls, depth).Ok?
    ensures var cs := FieldsContent(p, s, fields, decls, depth).value;
            NoReturnText(cs) && (EachProper(cs) <==> SpellableFields(p, fields))
    decreases fields
  {
    if fields != [] {
      var rest := fields[1..];
      assert forall i :: 0 <= i < |rest| ==> rest[i] == fields[i + 1];
      var f, t := fields[0], ChildType(decls, fields[0].name);
      FieldIsProper(p, s, f.name, f.field, t, depth);
      FieldsAreProper(p, s, rest, decls, depth);
      ProperAppend(FieldContent(p, s, f.name, f.field, t, depth).value, FieldsContent(p, s, rest, decls, depth).value);
      assert SpellableFields(p, fields) <==> SpellableField(p, f.field) && SpellableFields(p, rest);
    }
  }

  lemma {:induction false} FieldIsProper(p: Platform, s: Schema, name: string, f: Field, t: string, depth: nat)
    requires SafeName(name) && SafeField(f) && FieldContent(p, s, name, f, t, depth).Ok?
    ensures var cs := FieldContent(p, s, name, f, t, depth).value;
            NoReturnText(cs) && (EachProper(cs) <==> SpellableField(p, f))
    decreases f, 2
  {
    match f
    case One(n) =>
      ContentIsProper(p, s, name, n, t, false, depth);
      LineIsProper(ContentOf(p, s, name, n, t, false, depth).value, depth);
    case Many(ns) => ItemsAreProper(p, s, name, ns, t, depth);
  }

  lemma {:induction false} ItemsAreProper(p: Platform, s: Schema, name: string, ns: seq<Node>, t: string, depth: nat)
    requires SafeName(name) && (forall i :: 0 <= i < |ns| ==> SafeNode(ns[i]))
    requires ItemsContent(p, s, name, ns, t, depth).Ok?
    ensures var cs := ItemsContent(p, s, name, ns, t, depth).value;
            NoReturnText(cs) && (EachProper(cs) <==> SpellableAll(p, ns))
    decreases ns
  {
    if ns != [] {
      var rest := ns[1..];
      assert forall i :: 0 <= i < |rest| ==> rest[i] == ns[i + 1];
      ContentIsProper(p, s, name, ns[0], t, false, depth);
      ItemsAreProper(p, s, name, rest, t, depth);
      var c := ContentOf(p, s, name, ns[0], t, false, depth).value;
      LineIsProper(c, depth);
      ProperAppend(Line(c, depth), ItemsContent(p, s, name, rest, t, depth).value);
      assert SpellableAll(p, ns) <==> Spellable(p, ns[0]) && SpellableAll(p, rest);
    }
  }

  lemma DeclarationIsProper()
    ensures Misc(Instruction(DECLARATION)) && Misc(CharData("\n"))
  {
    SpaceIsProper("\n");
  }

  /** What `to_xml` writes is accepted exactly when every leaf's text is spellable. */
  lemma WrittenIsWellFormed(p: Platform, s: Schema, m: Message, d: Document)
    requires SafeName(m.name) && SafeNode(m.body) && ToXml(p, s, m) == Ok(d)
    ensures WellFormed(d) <==> Spellable(p, m.body)
  {
    var g := GlobalType(s, m.name);
    ContentIsProper(p, s, m.name, m.body, if g.Some? then g.value else m.name, true, 0);
    WrittenIsSound(p, s, m, d, MAX_DEPTH);
    UciNamespaces.WrittenIsBound(p, s, m, d);
    DeclaredIsWellFormed(d.root);
  }

  lemma DeclaredIsWellFormed(root: Content)
    requires Bound(root, RESERVED) && SoundDocument(Declared(root))
    ensures WellFormed(Declared(root)) <==> Proper(root)
  {
    DeclarationIsProper();
    var d := Declared(root);
    assert d.prolog[0] == Instruction(DECLARATION) && d.prolog[1] == CharData("\n");
  }
}
