/** The writer that appends XML text to a string (crates/oa-gateway-uci/src/xml.rs,
    `write_element` and `escape`). */
module UciXmlWriter {
  import opened Wrappers
  import opened Primitive
  import opened UciSchema
  import opened UciInstance
  import opened XmlScan
  import opened UciXml

  /** `str::replace` of one character. */
  function Replace(s: string, c: char, put: string): string {
    if s == [] then [] else (if s[0] == c then put else [s[0]]) + Replace(s[1..], c, put)
  }

  lemma {:induction false} ReplaceAppend(a: string, b: string, c: char, put: string)
    ensures Replace(a + b, c, put) == Replace(a, c, put) + Replace(b, c, put)
  {
    if a == [] {
      assert a + b == b;
    } else {
      assert (a + b)[1..] == a[1..] + b;
      ReplaceAppend(a[1..], b, c, put);
    }
  }

  lemma {:induction false} ReplaceNothing(s: string, c: char, put: string)
    requires c !in s
    ensures Replace(s, c, put) == s
  {
    if s != [] {
      assert s[0] in s;
      ReplaceNothing(s[1..], c, put);
    }
  }

  /** Three replacements in a row, ampersands first, escape each character once. */
  lemma {:induction false} EscapeByReplacing(s: string)
    ensures Replace(Replace(Replace(s, '&', "&amp;"), '<', "&lt;"), '>', "&gt;") == EscapeXml(s)
  {
    if s != [] {
      var head := if s[0] == '&' then "&amp;" else [s[0]];
      var rest := Replace(s[1..], '&', "&amp;");
      ReplaceAppend(head, rest, '<', "&lt;");
      var head2 := if s[0] == '<' then "&lt;" else head;
      HeadReplaced(s[0], head);
      assert Replace(head, '<', "&lt;") == head2;
      ReplaceAppend(head2, Replace(rest, '<', "&lt;"), '>', "&gt;");
      EscapeByReplacing(s[1..]);
    }
  }

  lemma HeadReplaced(c: char, head: string)
    requires head == if c == '&' then "&amp;" else [c]
    ensures var second := Replace(head, '<', "&lt;");
            && second == (if c == '<' then "&lt;" else head)
            && Replace(second, '>', "&gt;") ==
               (if c == '&' then "&amp;" else if c == '<' then "&lt;" else if c == '>' then "&gt;" else [c])
  {
    if c == '&' {
      ReplaceNothing(head, '<', "&lt;");
      ReplaceNothing(head, '>', "&gt;");
    } else if c == '<' {
      assert head[1..] == [];
      assert "&lt;" + [] == "&lt;";
      ReplaceNothing("&lt;", '>', "&gt;");
    } else if c == '>' {
      ReplaceNothing(head, '<', "&lt;");
      assert head[1..] == [];
      assert "&gt;" + [] == "&gt;";
    } else {
      ReplaceNothing(head, '<', "&lt;");
      ReplaceNothing(head, '>', "&gt;");
    }
  }

  /** Text so far, and what the rest of the children add to it. */
  function Followed(out: string, r: Result<seq<Content>, UciError>): Result<string, UciError> {
    match r
    case Ok(cs) => Ok(out + RenderAll(cs))
    case Err(e) => Err(e)
  }

  function Spelled(out: string, depth: nat, r: Result<Content, UciError>): Result<string, UciError> {
    match r
    case Ok(c) => Ok(out + Pad(depth) + Render(c))
    case Err(e) => Err(e)
  }

  lemma {:induction false} RenderAppend(a: seq<Content>, b: seq<Content>)
    ensures RenderAll(a + b) == RenderAll(a) + RenderAll(b)
  {
    if a == [] {
      assert a + b == b;
    } else {
      assert (a + b)[1..] == a[1..] + b;
      RenderAppend(a[1..], b);
    }
  }

  lemma RenderLine(c: Content, depth: nat, rest: seq<Content>)
    ensures RenderAll(Line(c, depth) + rest) == Pad(depth) + Render(c) + "\n" + RenderAll(rest)
  {
    var all := Line(c, depth) + rest;
    var a := all[1..];
    var b := a[1..];
    assert a == [c, CharData("\n")] + rest && b == [CharData("\n")] + rest && b[1..] == rest;
    assert RenderAll(b) == "\n" + RenderAll(rest);
    assert RenderAll(a) == Render(c) + RenderAll(b);
    assert RenderAll(all) == Pad(depth) + RenderAll(a);
  }

  /** What is left to write after one child is its line and then the others. */
  lemma FollowedLine(out: string, c: Content, depth: nat, rest: Result<seq<Content>, UciError>)
    ensures rest.Ok? ==>
              Followed(out, Ok(Line(c, depth) + rest.value)) == Followed(out + Pad(depth) + Render(c) + "\n", rest)
  {
    if rest.Ok? {
      RenderLine(c, depth, rest.value);
      var line := Pad(depth) + Render(c) + "\n";
      assert out + (line + RenderAll(rest.value)) == out + line + RenderAll(rest.value);
      assert out + line == out + Pad(depth) + Render(c) + "\n";
    }
  }

  /** One attribute as it is pushed. */
  function SpellAttribute(name: string, value: string): string {
    " " + name + "=" + ['"'] + value + ['"']
  }

  lemma RenderOne(name: string, value: string, rest: seq<Attribute>)
    ensures RenderAttributes([Attr(name, value)] + rest) == SpellAttribute(name, value) + RenderAttributes(rest)
  {
    assert ([Attr(name, value)] + rest)[1..] == rest;
  }

  /** Opening of a start tag, up to but not including its `>` or `/>`: the namespace on the
      root, `xsi` where a concrete type is named, then the type. */
  method OpenTag(out: string, name: string, typeName: Option<string>, isRoot: bool) returns (text: string)
    ensures text == out + "<" + RenderTag(Tag(name, TypeAttributes(typeName, isRoot), ""))
  {
    var pushed := "";
    ghost var done: seq<Attribute> := [];
    if isRoot {
      pushed := AddAttribute(pushed, done, "xmlns", NAMESPACE);
      done := done + [Attr("xmlns", NAMESPACE)];
    }
    if typeName.Some? {
      pushed := AddAttribute(pushed, done, "xmlns:xsi", XSI);
      done := done + [Attr("xmlns:xsi", XSI)];
      pushed := AddAttribute(pushed, done, "xsi:type", typeName.value);
      done := done + [Attr("xsi:type", typeName.value)];
    }
    assert done == TypeAttributes(typeName, isRoot);
    assert name + pushed + "" == name + pushed;
    text := out + "<" + (name + pushed);
  }

  method AddAttribute(text: string, ghost done: seq<Attribute>, name: string, value: string) returns (longer: string)
    requires text == RenderAttributes(done)
    ensures longer == RenderAttributes(done + [Attr(name, value)])
  {
    longer := text + SpellAttribute(name, value);
    RenderAttributesAppend(done, [Attr(name, value)]);
    RenderOne(name, value, []);
    assert [Attr(name, value)] + [] == [Attr(name, value)];
    assert SpellAttribute(name, value) + "" == SpellAttribute(name, value);
  }

  lemma {:induction false} RenderAttributesAppend(a: seq<Attribute>, b: seq<Attribute>)
    ensures RenderAttributes(a + b) == RenderAttributes(a) + RenderAttributes(b)
  {
    if a == [] {
      assert a + b == b;
    } else {
      assert (a + b)[1..] == a[1..] + b;
      RenderAttributesAppend(a[1..], b);
    }
  }

  /** `write_element`: appends one element at its indentation. */
  method WriteElement(p: Platform, s: Schema, out: string, name: string, n: Node, t: string, isRoot: bool, depth: nat)
    returns (r: Result<string, UciError>)
    ensures r == Spelled(out, depth, ContentOf(p, s, name, n, t, isRoot, depth))
    decreases n, 1
  {
    if depth > MAX_DEPTH { return Err(TooDeep); }
    if n.Leaf? {
      var text := OpenTag(out + Pad(depth), name, None, isRoot);
      var escaped := Replace(Replace(Replace(AsText(p, n.simple), '&', "&amp;"), '<', "&lt;"), '>', "&gt;");
      EscapeByReplacing(AsText(p, n.simple));
      text := text + ">" + escaped + "</" + name + ">";
      LeafText(out + Pad(depth), name, TypeAttributes(None, isRoot), EscapeXml(AsText(p, n.simple)));
      return Ok(text);
    }
    var text := OpenTag(out + Pad(depth), name, n.typeName, isRoot);
    if n.fields == [] {
      EmptyText(out + Pad(depth), Tag(name, TypeAttributes(n.typeName, isRoot), ""));
      return Ok(text + "/>");
    }
    var decls := DeclsOf(s, ActualOf(n, t));
    if decls.Err? { return Err(decls.error); }
    var body := WriteFields(p, s, text + ">" + "\n", n.fields, decls.value, depth + 1);
    if body.Err? { return body; }
    ghost var cs := FieldsContent(p, s, n.fields, decls.value, depth + 1).value;
    ElementText(out + Pad(depth), Tag(name, TypeAttributes(n.typeName, isRoot), ""), cs, depth);
    r := Ok(body.value + Pad(depth) + "</" + name + ">");
  }

  lemma LeafText(out: string, name: string, attrs: seq<Attribute>, text: string)
    ensures var tag := Tag(name, attrs, "");
            out + "<" + RenderTag(tag) + ">" + text + "</" + name + ">" == out + Render(Element(tag, [CharData(text)], ""))
  {
    var tag, cs := Tag(name, attrs, ""), [CharData(text)];
    assert cs[1..] == [];
    assert RenderAll(cs) == text + "";
    assert Render(Element(tag, cs, "")) == "<" + RenderTag(tag) + ">" + text + "</" + name + ">";
  }

  lemma EmptyText(out: string, tag: Tag)
    ensures out + "<" + RenderTag(tag) + "/>" == out + Render(Empty(tag))
  {
    assert Render(Empty(tag)) == "<" + RenderTag(tag) + "/>";
  }

  lemma RenderText(text: string)
    ensures RenderAll([CharData(text)]) == text
  {
    var cs := [CharData(text)];
    assert cs[1..] == [];
    assert RenderAll(cs) == text + "";
  }

  lemma ElementText(out: string, tag: Tag, cs: seq<Content>, depth: nat)
    ensures out + "<" + RenderTag(tag) + ">" + "\n" + RenderAll(cs) + Pad(depth) + "</" + tag.name + ">" ==
            out + Render(Element(tag, [CharData("\n")] + cs + [CharData(Pad(depth))], ""))
  {
    var first, last := [CharData("\n")], [CharData(Pad(depth))];
    var all := first + cs + last;
    RenderAppend(first + cs, last);
    RenderAppend(first, cs);
    RenderText("\n");
    RenderText(Pad(depth));
    assert RenderAll(all) == "\n" + RenderAll(cs) + Pad(depth);
    TagsAround(out, tag, all, "\n", RenderAll(cs), Pad(depth));
  }

  lemma TagsAround(out: string, tag: Tag, all: seq<Content>, a: string, b: string, c: string)
    requires RenderAll(all) == a + b + c
    ensures out + "<" + RenderTag(tag) + ">" + a + b + c + "</" + tag.name + ">" == out + Render(Element(tag, all, ""))
  {
    Regroup(out, "<", RenderTag(tag), ">", a, b, c, "</", tag.name, ">");
  }

  lemma Regroup(o: string, l: string, r: string, g: string, a: string, b: string, c: string, x: string, n: string, y: string)
    ensures o + l + r + g + a + b + c + x + n + y == o + (l + r + g + (a + b + c) + x + n + "" + y)
  {
  }

  /** The field loop. */
  method WriteFields(p: Platform, s: Schema, out: string, fields: seq<NamedField>, decls: seq<ElementDecl>, depth: nat)
    returns (r: Result<string, UciError>)
    ensures r == Followed(out, FieldsContent(p, s, fields, decls, depth))
    decreases fields
  {
    var text := out;
    assert fields[0..] == fields;
    for i := 0 to |fields|
      invariant Followed(out, FieldsContent(p, s, fields, decls, depth)) ==
                Followed(text, FieldsContent(p, s, fields[i..], decls, depth))
    {
      var f := fields[i];
      assert fields[i..][0] == f && fields[i..][1..] == fields[i + 1..];
      var t := ChildType(decls, f.name);
      ghost var rest := FieldsContent(p, s, fields[i + 1..], decls, depth);
      match f.field
      case One(n) =>
        var one := WriteElement(p, s, text, f.name, n, t, false, depth);
        if one.Err? { return one; }
        FollowedLine(text, ContentOf(p, s, f.name, n, t, false, depth).value, depth, rest);
        text := one.value + "\n";
      case Many(ns) =>
        var many := WriteItems(p, s, text, f.name, ns, t, depth);
        if many.Err? { return many; }
        FollowedItems(text, ItemsContent(p, s, f.name, ns, t, depth).value, rest);
        text := many.value;
    }
    var none: seq<NamedField> := fields[|fields|..];
    assert none == [] && text + "" == text;
    r := Ok(text);
  }

  lemma FollowedItems(out: string, cs: seq<Content>, rest: Result<seq<Content>, UciError>)
    ensures rest.Ok? ==> Followed(out, Ok(cs + rest.value)) == Followed(out + RenderAll(cs), rest)
  {
    if rest.Ok? {
      RenderAppend(cs, rest.value);
      assert out + (RenderAll(cs) + RenderAll(rest.value)) == out + RenderAll(cs) + RenderAll(rest.value);
    }
  }

  /** The loop over one repeating field. */
  method WriteItems(p: Platform, s: Schema, out: string, name: string, ns: seq<Node>, t: string, depth: nat)
    returns (r: Result<string, UciError>)
    ensures r == Followed(out, ItemsContent(p, s, name, ns, t, depth))
    decreases ns
  {
    var text := out;
    assert ns[0..] == ns;
    for i := 0 to |ns|
      invariant Followed(out, ItemsContent(p, s, name, ns, t, depth)) ==
                Followed(text, ItemsContent(p, s, name, ns[i..], t, depth))
    {
      assert ns[i..][0] == ns[i] && ns[i..][1..] == ns[i + 1..];
      var one := WriteElement(p, s, text, name, ns[i], t, false, depth);
      if one.Err? { return one; }
      FollowedLine(text, ContentOf(p, s, name, ns[i], t, false, depth).value, depth,
                   ItemsContent(p, s, name, ns[i + 1..], t, depth));
      text := one.value + "\n";
    }
    var none: seq<Node> := ns[|ns|..];
    assert none == [] && text + "" == text;
    r := Ok(text);
  }

  /** `to_xml`: the declaration, the root at depth zero, a final line end. Its text is the
      rendering of the document `ToXml` describes. */
  method WriteMessage(p: Platform, s: Schema, m: Message) returns (r: Result<string, UciError>)
    ensures r == match ToXml(p, s, m) case Ok(d) => Ok(RenderDocument(d)) case Err(e) => Err(e)
  {
    var g := GlobalType(s, m.name);
    var out := "<?" + DECLARATION + "?>" + "\n";
    var root := WriteElement(p, s, out, m.name, m.body, if g.Some? then g.value else m.name, true, 0);
    if root.Err? { return root; }
    DeclaredText(ToXml(p, s, m).value.root);
    r := Ok(root.value + "\n");
  }

  lemma DeclaredText(root: Content)
    ensures "<?" + DECLARATION + "?>" + "\n" + Pad(0) + Render(root) + "\n" == RenderDocument(Declared(root))
  {
    var d := Declared(root);
    RenderAppend(d.prolog + [d.root], d.epilog);
    RenderAppend(d.prolog, [d.root]);
    assert d.prolog[1..] == [CharData("\n")] && d.prolog[1..][1..] == [] && [d.root][1..] == [] && d.epilog[1..] == [];
    assert RenderAll(d.prolog[1..]) == "\n" + "" && RenderAll([d.root]) == Render(root) + "" && RenderAll(d.epilog) == "\n" + "";
    assert RenderAll(d.prolog) == Render(d.prolog[0]) + RenderAll(d.prolog[1..]);
    var open := Render(d.prolog[0]);
    assert open == "<?" + DECLARATION + "?>";
    Assemble(open, Render(root));
  }

  lemma Assemble(open: string, root: string)
    ensures open + "\n" + "" + root + "\n" == open + ("\n" + "") + (root + "") + ("\n" + "")
  {
  }
}
