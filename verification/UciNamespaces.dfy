/** Namespaces in what is written (crates/oa-gateway-uci/src/xml.rs, `write_element`): every
    prefix is bound where it is used, `xsi` to the instance namespace, and the root is in the
    message namespace. */
module UciNamespaces {
  import opened Wrappers
  import opened Primitive
  import opened UciSchema
  import opened UciInstance
  import opened XmlScan
  import opened XmlText
  import opened UciXml
  import opened UciShape

  /** A tag that names a type says what `xsi` is. */
  predicate SaysXsi(t: Tag) {
    Says(t, "xsi", Attr("xmlns:xsi", XSI))
  }

  predicate Says(t: Tag, prefix: string, binding: Attribute) {
    (exists i :: 0 <= i < |t.attributes| && PrefixOf(t.attributes[i].name) == Some(prefix)) ==> binding in t.attributes
  }

  predicate Namespaced(c: Content)
    decreases c, 0
  {
    match c
    case Empty(tag) => SaysXsi(tag)
    case Element(tag, content, _) => SaysXsi(tag) && forall i :: 0 <= i < |content| ==> Namespaced(content[i])
    case _ => true
  }

  lemma {:induction false} NoPrefix(name: string)
    requires IsNcName(name)
    ensures PrefixOf(name).None?
  {
    NcNameIsTame(name);
  }

  lemma {:induction false} PrefixAt(q: string, n: nat)
    requires n < |q| && q[n] == ':' && ':' !in q[..n]
    ensures PrefixOf(q) == Some(q[..n])
  {
    if n == 0 {
      assert q[..n] == [];
    } else {
      assert q[0] == q[..n][0] && q[1..][..n - 1] == q[..n][1..];
      PrefixAt(q[1..], n - 1);
      assert q[..n] == [q[0]] + q[1..][..n - 1];
    }
  }

  lemma XmlnsPrefix(q: string)
    requires q == "xmlns:xsi"
    ensures PrefixOf(q) == Some("xmlns")
  {
    assert q[..5] == "xmlns";
    PrefixAt(q, 5);
  }

  lemma XsiPrefix(q: string)
    requires q == "xsi:type"
    ensures PrefixOf(q) == Some("xsi")
  {
    assert q[..3] == "xsi";
    PrefixAt(q, 3);
  }

  lemma PlainPrefix(q: string)
    requires q == "xmlns"
    ensures PrefixOf(q).None?
  {
  }

  lemma AttributeLists(typeName: string)
    ensures var x, y, z := Attr("xmlns", NAMESPACE), Attr("xmlns:xsi", XSI), Attr("xsi:type", typeName);
            && TypeAttributes(None, false) == [] && TypeAttributes(None, true) == [x]
            && TypeAttributes(Some(typeName), false) == [y, z] && TypeAttributes(Some(typeName), true) == [x, y, z]
  {
  }

  /** A tag whose prefixes are in scope or bound by one of its attributes. */
  lemma BoundTag(name: string, attributes: seq<Attribute>, i: nat, scope: set<string>)
    requires PrefixOf(name).None? && i < |attributes| && "xmlns:" <= attributes[i].name
    requires forall k :: 0 <= k < |attributes| ==> NameBound(attributes[k].name, scope + {attributes[i].name[6..]})
    ensures var tag := Tag(name, attributes, "");
            TagBound(tag, scope + Binds(tag))
  {
    var tag := Tag(name, attributes, "");
    assert attributes[i].name[6..] in Binds(tag);
  }

  lemma WiderScope(t: Tag, scope: set<string>, more: set<string>)
    requires TagBound(t, scope)
    ensures TagBound(t, scope + more)
  {
  }

  lemma TypeTag(name: string, typeName: Option<string>, isRoot: bool, scope: set<string>)
    requires SafeName(name) && "xmlns" in scope
    ensures var tag := Tag(name, TypeAttributes(typeName, isRoot), "");
            TagBound(tag, scope + Binds(tag)) && SaysXsi(tag) && (isRoot ==> Attr("xmlns", NAMESPACE) in tag.attributes)
  {
    NoPrefix(name);
    PlainPrefix("xmlns");
    XmlnsPrefix("xmlns:xsi");
    XsiPrefix("xsi:type");
    var tn := if typeName.Some? then typeName.value else "";
    AttributeLists(tn);
    BindsXsi(Attr("xmlns:xsi", XSI));
    TagsInOrder(name, Attr("xmlns", NAMESPACE), Attr("xmlns:xsi", XSI), Attr("xsi:type", tn), scope, TypeAttributes(typeName, isRoot),
                "xmlns", "xsi");
  }

  /** The four shapes a tag's attributes have. */
  lemma TagsInOrder(
      name: string, x: Attribute, y: Attribute, z: Attribute, scope: set<string>, attributes: seq<Attribute>, xmlns: string, xsi: string)
    requires PrefixOf(name).None? && PrefixOf(x.name).None? && xmlns in scope && xmlns != xsi
    requires PrefixOf(y.name) == Some(xmlns) && "xmlns:" <= y.name && y.name[6..] == xsi && PrefixOf(z.name) == Some(xsi)
    requires attributes == [] || attributes == [x] || attributes == [y, z] || attributes == [x, y, z]
    ensures var tag := Tag(name, attributes, "");
            TagBound(tag, scope + Binds(tag)) && Says(tag, xsi, y)
  {
    var tag := Tag(name, attributes, "");
    if |attributes| < 2 { WiderScope(tag, scope, Binds(tag)); }
    else {
      assert y in attributes;
      BoundTag(name, attributes, |attributes| - 2, scope);
    }
  }

  lemma BindsXsi(y: Attribute)
    requires y == Attr("xmlns:xsi", XSI)
    ensures "xmlns:" <= y.name && y.name[6..] == "xsi"
  {
  }

  predicate AllBound(cs: seq<Content>, scope: set<string>) {
    forall i :: 0 <= i < |cs| ==> Bound(cs[i], scope) && Namespaced(cs[i])
  }

  lemma BoundAppend(a: seq<Content>, b: seq<Content>, scope: set<string>)
    requires AllBound(a, scope) && AllBound(b, scope)
    ensures AllBound(a + b, scope)
  {
  }

  lemma {:induction false} ContentIsBound(
      p: Platform, s: Schema, name: string, n: Node, t: string, isRoot: bool, depth: nat, scope: set<string>)
    requires SafeName(name) && SafeNode(n) && ContentOf(p, s, name, n, t, isRoot, depth).Ok? && "xmlns" in scope
    ensures var c := ContentOf(p, s, name, n, t, isRoot, depth).value;
            Bound(c, scope) && Namespaced(c) && (isRoot ==> Attr("xmlns", NAMESPACE) in c.tag.attributes)
    decreases n, 1
  {
    var typeName := if n.Leaf? then None else n.typeName;
    var tag := Tag(name, TypeAttributes(typeName, isRoot), "");
    TypeTag(name, typeName, isRoot, scope);
    if n.Leaf? {
      ElementIsBound(tag, [CharData(EscapeXml(AsText(p, n.simple)))], scope);
    } else if n.fields != [] {
      var decls := DeclsOf(s, ActualOf(n, t)).value;
      FieldsAreBound(p, s, n.fields, decls, depth + 1, scope + Binds(tag));
      LinesAreBound(FieldsContent(p, s, n.fields, decls, depth + 1).value, "\n", Pad(depth), scope + Binds(tag));
      ElementIsBound(tag, [CharData("\n")] + FieldsContent(p, s, n.fields, decls, depth + 1).value + [CharData(Pad(depth))], scope);
    }
  }

  lemma LinesAreBound(cs: seq<Content>, a: string, b: string, scope: set<string>)
    requires AllBound(cs, scope)
    ensures AllBound([CharData(a)] + cs + [CharData(b)], scope)
  {
    BoundAppend([CharData(a)], cs, scope);
    BoundAppend([CharData(a)] + cs, [CharData(b)], scope);
  }

  lemma ElementIsBound(tag: Tag, content: seq<Content>, scope: set<string>)
    requires TagBound(tag, scope + Binds(tag)) && SaysXsi(tag) && AllBound(content, scope + Binds(tag))
    ensures Bound(Element(tag, content, ""), scope) && Namespaced(Element(tag, content, ""))
  {
  }

  lemma {:induction false} FieldsAreBound(
      p: Platform, s: Schema, fields: seq<NamedField>, decls: seq<ElementDecl>, depth: nat, scope: set<string>)
    requires forall i :: 0 <= i < |fields| ==> SafeName(fields[i].name) && SafeField(fields[i].field)
    requires FieldsContent(p, s, fields, decls, depth).Ok? && "xmlns" in scope
    ensures AllBound(FieldsContent(p, s, fields, decls, depth).value, scope)
    decreases fields
  {
    if fields != [] {
      var f, t, rest := fields[0], ChildType(decls, fields[0].name), fields[1..];
      assert forall i :: 0 <= i < |rest| ==> rest[i] == fields[i + 1];
      FieldsAreBound(p, s, rest, decls, depth, scope);
      match f.field {
        case One(n) => ContentIsBound(p, s, f.name, n, t, false, depth, scope);
        case Many(ns) => ItemsAreBound(p, s, f.name, ns, t, depth, scope);
      }
      BoundAppend(FieldContent(p, s, f.name, f.field, t, depth).value, FieldsContent(p, s, rest, decls, depth).value, scope);
    }
  }

  lemma {:induction false} ItemsAreBound(p: Platform, s: Schema, name: string, ns: seq<Node>, t: string, depth: nat, scope: set<string>)
    requires SafeName(name) && (forall i :: 0 <= i < |ns| ==> SafeNode(ns[i])) && "xmlns" in scope
    requires ItemsContent(p, s, name, ns, t, depth).Ok?
    ensures AllBound(ItemsContent(p, s, name, ns, t, depth).value, scope)
    decreases ns
  {
    if ns != [] {
      var rest := ns[1..];
      assert forall i :: 0 <= i < |rest| ==> rest[i] == ns[i + 1];
      ContentIsBound(p, s, name, ns[0], t, false, depth, scope);
      ItemsAreBound(p, s, name, rest, t, depth, scope);
      BoundAppend(Line(ContentOf(p, s, name, ns[0], t, false, depth).value, depth), ItemsContent(p, s, name, rest, t, depth).value, scope);
    }
  }

  /** Everything that is written: prefixes bound, `xsi` to the instance namespace, and the root
      in the message namespace. */
  lemma WrittenIsBound(p: Platform, s: Schema, m: Message, d: Document)
    requires SafeName(m.name) && SafeNode(m.body) && ToXml(p, s, m) == Ok(d)
    ensures Bound(d.root, RESERVED) && Namespaced(d.root) && Attr("xmlns", NAMESPACE) in d.root.tag.attributes
  {
    var g := GlobalType(s, m.name);
    ContentIsBound(p, s, m.name, m.body, if g.Some? then g.value else m.name, true, 0, RESERVED);
  }
}
