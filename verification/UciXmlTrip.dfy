/** Writing XML and reading it back. */
module UciXmlTrip {
  import opened Wrappers
  import opened Primitive
  import opened UciSchema
  import opened UciInstance
  import opened XmlScan
  import opened UciXml
  import opened UciShape
  import opened XmlText
  import opened UciSpelling

  // ---- Children, in order and by name --------------------------------------------------

  /** What a reader makes of a field's elements. */
  function FieldChildren(f: NamedField): seq<Child> {
    match f.field
    case One(n) => [Child(f.name, Ok(n))]
    case Many(ns) => seq(|ns|, i requires 0 <= i < |ns| => Child(f.name, Ok(ns[i])))
  }

  function ChildrenOf(fields: seq<NamedField>): seq<Child> {
    if fields == [] then [] else ChildrenOf(fields[..|fields| - 1]) + FieldChildren(fields[|fields| - 1])
  }

  lemma {:induction false} ChildrenCons(f: NamedField, rest: seq<NamedField>)
    ensures ChildrenOf([f] + rest) == FieldChildren(f) + ChildrenOf(rest)
  {
    if rest == [] {
      ChildrenOne(f);
      PlusNothing([f]);
    } else {
      var front, last := rest[..|rest| - 1], rest[|rest| - 1];
      ChildrenCons(f, front);
      ChildrenConsLast(f, front, last);
      assert rest == front + [last];
    }
  }

  lemma ChildrenOne(f: NamedField)
    ensures ChildrenOf([f]) == FieldChildren(f) + ChildrenOf([])
  {
    ChildrenLast([], f);
    PlusNothing([f]);
    PlusNothing(FieldChildren(f));
  }

  lemma ChildrenConsLast(f: NamedField, front: seq<NamedField>, last: NamedField)
    requires ChildrenOf([f] + front) == FieldChildren(f) + ChildrenOf(front)
    ensures ChildrenOf([f] + (front + [last])) == FieldChildren(f) + ChildrenOf(front + [last])
  {
    Associate([f], front, [last]);
    ChildrenLast([f] + front, last);
    ChildrenLast(front, last);
    Associate(FieldChildren(f), ChildrenOf(front), FieldChildren(last));
  }

  lemma ChildrenLast(front: seq<NamedField>, last: NamedField)
    ensures ChildrenOf(front + [last]) == ChildrenOf(front) + FieldChildren(last)
  {
    var all := front + [last];
    assert all[..|all| - 1] == front && all[|all| - 1] == last;
  }

  lemma {:induction false} GroupedAppend(a: seq<Child>, b: seq<Child>, name: string)
    ensures Grouped(a + b, name) == Grouped(a, name) + Grouped(b, name)
  {
    if b == [] {
      assert a + b == a;
    } else {
      var k := |b| - 1;
      assert (a + b)[..|a + b| - 1] == a + b[..k];
      GroupedAppend(a, b[..k], name);
    }
  }

  lemma {:induction false} GroupedSame(cs: seq<Child>, name: string)
    requires forall i :: 0 <= i < |cs| ==> cs[i].name == name
    ensures Grouped(cs, name) == seq(|cs|, i requires 0 <= i < |cs| => cs[i].result)
  {
    if cs != [] { GroupedSame(cs[..|cs| - 1], name); }
  }

  lemma {:induction false} GroupedOther(cs: seq<Child>, name: string)
    requires forall i :: 0 <= i < |cs| ==> cs[i].name != name
    ensures Grouped(cs, name) == []
  {
    if cs != [] { GroupedOther(cs[..|cs| - 1], name); }
  }

  lemma {:induction false} OrderAppendSame(a: seq<Child>, b: seq<Child>, name: string)
    requires forall i :: 0 <= i < |b| ==> b[i].name == name
    requires b != [] && name !in Order(a)
    ensures Order(a + b) == Order(a) + [name]
    decreases |b|
  {
    var k := |b| - 1;
    assert (a + b)[..|a + b| - 1] == a + b[..k];
    if k == 0 {
      assert a + b[..k] == a;
    } else {
      OrderAppendSame(a, b[..k], name);
    }
  }

  function NamesOf(fields: seq<NamedField>): seq<string> {
    seq(|fields|, i requires 0 <= i < |fields| => fields[i].name)
  }

  /** Every field has at least one element. */
  predicate Filled(fields: seq<NamedField>) {
    forall i :: 0 <= i < |fields| ==> FieldChildren(fields[i]) != []
  }

  lemma {:induction false} OrderOfFields(fields: seq<NamedField>)
    requires DistinctNames(fields) && Filled(fields)
    ensures Order(ChildrenOf(fields)) == NamesOf(fields)
  {
    if fields != [] {
      var k := |fields| - 1;
      FrontFields(fields);
      OrderOfFields(fields[..k]);
      OrderAppendSame(ChildrenOf(fields[..k]), FieldChildren(fields[k]), fields[k].name);
    }
  }

  lemma FrontFields(fields: seq<NamedField>)
    requires fields != [] && DistinctNames(fields) && Filled(fields)
    ensures var k := |fields| - 1;
            && DistinctNames(fields[..k]) && Filled(fields[..k]) && FieldChildren(fields[k]) != []
            && fields[k].name !in NamesOf(fields[..k])
            && NamesOf(fields) == NamesOf(fields[..k]) + [fields[k].name]
  {
    var front := fields[..|fields| - 1];
    assert forall i :: 0 <= i < |front| ==> front[i] == fields[i];
  }

  /** The last field adds its elements to the group of its own name only. */
  lemma GroupedStep(fields: seq<NamedField>, name: string)
    requires fields != []
    ensures var k := |fields| - 1;
            Grouped(ChildrenOf(fields), name) ==
            Grouped(ChildrenOf(fields[..k]), name) + if fields[k].name == name then Grouped(FieldChildren(fields[k]), name) else []
  {
    var k := |fields| - 1;
    GroupedAppend(ChildrenOf(fields[..k]), FieldChildren(fields[k]), name);
    ChildrenNamed(fields[k]);
    if fields[k].name != name { GroupedOther(FieldChildren(fields[k]), name); }
  }

  lemma {:induction false} GroupedOfFields(fields: seq<NamedField>, i: nat)
    requires DistinctNames(fields) && i < |fields|
    ensures Grouped(ChildrenOf(fields), fields[i].name) == Grouped(FieldChildren(fields[i]), fields[i].name)
  {
    if i < |fields| - 1 {
      DistinctFront(fields);
      GroupedOfFields(fields[..|fields| - 1], i);
      GroupedEarlier(fields, i);
    } else {
      GroupedLast(fields);
    }
  }

  lemma GroupedEarlier(fields: seq<NamedField>, i: nat)
    requires i < |fields| - 1 && fields[i].name != fields[|fields| - 1].name
    ensures Grouped(ChildrenOf(fields), fields[i].name) == Grouped(ChildrenOf(fields[..|fields| - 1]), fields[i].name)
  {
    GroupedStep(fields, fields[i].name);
    PlusNothing(Grouped(ChildrenOf(fields[..|fields| - 1]), fields[i].name));
  }

  lemma GroupedLast(fields: seq<NamedField>)
    requires DistinctNames(fields) && fields != []
    ensures var f := fields[|fields| - 1];
            Grouped(ChildrenOf(fields), f.name) == Grouped(FieldChildren(f), f.name)
  {
    var k := |fields| - 1;
    DistinctFront(fields);
    ForeignFields(fields[..k], fields[k].name);
    GroupedStep(fields, fields[k].name);
    PlusNothing(Grouped(FieldChildren(fields[k]), fields[k].name));
  }

  lemma ChildrenNamed(f: NamedField)
    ensures forall i :: 0 <= i < |FieldChildren(f)| ==> FieldChildren(f)[i].name == f.name
  {
  }

  lemma DistinctFront(fields: seq<NamedField>)
    requires fields != [] && DistinctNames(fields)
    ensures var k := |fields| - 1;
            && DistinctNames(fields[..k])
            && forall i :: 0 <= i < k ==> fields[..k][i] == fields[i] && fields[..k][i].name != fields[k].name
  {
  }

  predicate Foreign(fields: seq<NamedField>, name: string) {
    forall i :: 0 <= i < |fields| ==> fields[i].name != name
  }

  lemma ForeignFront(fields: seq<NamedField>, name: string)
    requires fields != [] && Foreign(fields, name)
    ensures Foreign(fields[..|fields| - 1], name) && fields[|fields| - 1].name != name
  {
  }

  lemma {:induction false} ForeignFields(fields: seq<NamedField>, name: string)
    requires Foreign(fields, name)
    ensures Grouped(ChildrenOf(fields), name) == []
  {
    if fields != [] {
      ForeignFront(fields, name);
      ForeignFields(fields[..|fields| - 1], name);
      GroupedStep(fields, name);
    }
  }

  function Nodes(f: Field): seq<Node> {
    match f
    case One(n) => [n]
    case Many(ns) => ns
  }

  lemma {:induction false} CollectOk(rs: seq<Result<Node, UciError>>, ns: seq<Node>)
    requires |rs| == |ns| && forall i :: 0 <= i < |rs| ==> rs[i] == Ok(ns[i])
    ensures Collect(rs) == Ok(ns)
  {
    if rs != [] {
      CollectOk(rs[1..], ns[1..]);
      assert ns == [ns[0]] + ns[1..];
    }
  }

  lemma CollectField(f: NamedField)
    ensures Collect(Grouped(FieldChildren(f), f.name)) == Ok(Nodes(f.field))
  {
    var cs := FieldChildren(f);
    GroupedSame(cs, f.name);
    CollectOk(Grouped(cs, f.name), Nodes(f.field));
  }

  /** A `One` where nothing repeats, a `Many` where something does. */
  predicate Fits(f: Field, repeats: bool) {
    match f
    case One(_) => !repeats
    case Many(ns) => repeats || |ns| > 1
  }

  lemma {:induction false} BuildBack(fields: seq<NamedField>, decls: seq<ElementDecl>, from: nat)
    requires DistinctNames(fields) && Filled(fields) && from <= |fields|
    requires forall i :: 0 <= i < |fields| ==> Fits(fields[i].field, Repeats(decls, fields[i].name))
    ensures BuildFields(NamesOf(fields)[from..], ChildrenOf(fields), decls) == Ok(fields[from..])
    decreases |fields| - from
  {
    if from < |fields| {
      var f := fields[from];
      BuildBack(fields, decls, from + 1);
      GroupedOfFields(fields, from);
      CollectField(f);
      var names := NamesOf(fields)[from..];
      NamesFrom(fields, from);
      assert FieldChildren(fields[from]) != [] && Fits(fields[from].field, Repeats(decls, fields[from].name));
      assert FieldFor(Repeats(decls, f.name), Nodes(f.field)) == f.field;
      BuildStep(names, ChildrenOf(fields), decls, Nodes(f.field), fields[from + 1..]);
    } else {
      assert NamesOf(fields)[from..] == [] && fields[from..] == [];
    }
  }

  lemma NamesFrom(fields: seq<NamedField>, from: nat)
    requires from < |fields|
    ensures var names := NamesOf(fields)[from..];
            names != [] && names[0] == fields[from].name && names[1..] == NamesOf(fields)[from + 1..]
    ensures fields[from..] == [NamedField(fields[from].name, fields[from].field)] + fields[from + 1..]
  {
  }

  lemma BuildStep(names: seq<string>, cs: seq<Child>, decls: seq<ElementDecl>, nodes: seq<Node>, rest: seq<NamedField>)
    requires names != [] && Collect(Grouped(cs, names[0])) == Ok(nodes) && BuildFields(names[1..], cs, decls) == Ok(rest)
    ensures BuildFields(names, cs, decls) == Ok([NamedField(names[0], FieldFor(Repeats(decls, names[0]), nodes))] + rest)
  {
  }

  /** Grouping the elements of distinct fields gives the fields back. */
  lemma FieldsRegroup(fields: seq<NamedField>, decls: seq<ElementDecl>)
    requires DistinctNames(fields) && Filled(fields)
    requires forall i :: 0 <= i < |fields| ==> Fits(fields[i].field, Repeats(decls, fields[i].name))
    ensures BuildFields(Order(ChildrenOf(fields)), ChildrenOf(fields), decls) == Ok(fields)
  {
    OrderOfFields(fields);
    BuildBack(fields, decls, 0);
    assert NamesOf(fields)[0..] == NamesOf(fields) && fields[0..] == fields;
  }

  // ---- Reading what was written --------------------------------------------------------

  lemma ReadChildrenText(p: Platform, s: Schema, text: string, rest: seq<XNode>, decls: seq<ElementDecl>, depth: nat)
    ensures ReadChildren(p, s, Joined(text, rest), decls, depth) == ReadChildren(p, s, rest, decls, depth)
  {
    var j := Joined(text, rest);
    if rest != [] && rest[0].XText? {
      assert j[1..] == rest[1..];
    } else if text != [] {
      assert j[1..] == rest;
    }
  }

  /** Text between elements does not count. */
  lemma {:induction false} ReadChildrenSkip(p: Platform, s: Schema, text: string, cs: seq<Content>, decls: seq<ElementDecl>, depth: nat)
    ensures ReadChildren(p, s, ViewAll([CharData(text)] + cs), decls, depth) == ReadChildren(p, s, ViewAll(cs), decls, depth)
  {
    var all := [CharData(text)] + cs;
    assert all[1..] == cs;
    ReadChildrenText(p, s, Resolve(Eol(text)), ViewAll(cs), decls, depth);
  }

  lemma ReadChildrenElement(p: Platform, s: Schema, c: Content, cs: seq<Content>, decls: seq<ElementDecl>, depth: nat)
    requires View(c).XElement?
    ensures var e := View(c);
            ReadChildren(p, s, ViewAll([c] + cs), decls, depth) ==
            [Child(e.name, ReadElement(p, s, e, ChildType(decls, e.name), depth))] + ReadChildren(p, s, ViewAll(cs), decls, depth)
  {
    var all := [c] + cs;
    assert all[1..] == cs;
    assert ViewAll(all)[1..] == ViewAll(cs);
  }

  lemma LineSpelled(c: Content, cs: seq<Content>, pad: nat)
    ensures Line(c, pad) + cs == [CharData(Pad(pad))] + ([c] + ([CharData("\n")] + cs))
  {
  }

  lemma ReadLine(p: Platform, s: Schema, c: Content, cs: seq<Content>, decls: seq<ElementDecl>, pad: nat, depth: nat)
    requires View(c).XElement?
    ensures var e := View(c);
            ReadChildren(p, s, ViewAll(Line(c, pad) + cs), decls, depth) ==
            [Child(e.name, ReadElement(p, s, e, ChildType(decls, e.name), depth))] + ReadChildren(p, s, ViewAll(cs), decls, depth)
  {
    LineSpelled(c, cs, pad);
    ReadChildrenSkip(p, s, Pad(pad), [c] + ([CharData("\n")] + cs), decls, depth);
    ReadChildrenElement(p, s, c, [CharData("\n")] + cs, decls, depth);
    ReadChildrenSkip(p, s, "\n", cs, decls, depth);
  }

  lemma ViewOfLeaf(tag: Tag, text: string)
    ensures TextOf(View(Element(tag, [CharData(text)], ""))) == Resolve(Eol(text))
  {
    var cs := [CharData(text)];
    assert cs[1..] == [];
    assert ViewAll(cs) == Joined(Resolve(Eol(text)), []);
  }

  lemma NameAsValue(name: string)
    requires SafeName(name)
    ensures Resolve(Spaced(Eol(name))) == name && LocalName(name) == name
  {
    NcNameIsTame(name);
    EolFixed(name);
    SpacedFixed(name);
    ResolveOfPlain(name);
  }

  lemma ViewOfTag(name: string, typeName: Option<string>, isRoot: bool)
    requires SafeName(name) && (typeName.Some? ==> SafeName(typeName.value))
    ensures LocalName(name) == name
    ensures AttributeValue(TypeAttributes(typeName, isRoot), "xsi:type") == typeName
    ensures typeName.Some? ==> LocalName(typeName.value) == typeName.value
  {
    var attrs := TypeAttributes(typeName, isRoot);
    NcNameIsTame(name);
    if typeName.Some? {
      NameAsValue(typeName.value);
      var last := attrs[|attrs| - 1..];
      assert last == [Attr("xsi:type", typeName.value)];
      assert AttributeValue(last, "xsi:type") == typeName;
      if isRoot {
        assert attrs[1..][1..] == last;
        assert attrs[0].name == "xmlns" && attrs[1..][0].name == "xmlns:xsi";
        assert AttributeValue(attrs[1..], "xsi:type") == AttributeValue(last, "xsi:type");
      } else {
        assert attrs[1..] == last;
        assert attrs[0].name == "xmlns:xsi";
      }
    } else if isRoot {
      assert attrs[1..] == [];
      assert attrs[0].name == "xmlns";
    }
  }

  predicate HasName(fields: seq<NamedField>, name: string) {
    exists k :: 0 <= k < |fields| && fields[k].name == name
  }

  predicate NamedAmong(fs: seq<NamedField>, fields: seq<NamedField>) {
    forall i :: 0 <= i < |fs| ==> HasName(fields, fs[i].name)
  }

  lemma NamedAmongMore(fs: seq<NamedField>, fields: seq<NamedField>)
    requires fields != [] && DistinctNames(fields) && NamedAmong(fs, fields[1..])
    ensures NamedAmong(fs, fields) && forall i :: 0 <= i < |fs| ==> fs[i].name != fields[0].name
  {
    var tail := fields[1..];
    forall i | 0 <= i < |fs|
      ensures fs[i].name != fields[0].name && HasName(fields, fs[i].name)
    {
      assert HasName(tail, fs[i].name);
      var k :| 0 <= k < |tail| && tail[k].name == fs[i].name;
      assert fields[k + 1].name == fs[i].name;
    }
  }

  lemma {:induction false} NormalKeepsNames(p: Platform, s: Schema, fields: seq<NamedField>, decls: seq<ElementDecl>)
    requires DistinctNames(fields)
    requires forall i :: 0 <= i < |fields| ==>
      ShapedField(s, fields[i].field, ChildType(decls, fields[i].name), Repeats(decls, fields[i].name))
    ensures var fs := NormalFields(p, s, fields, decls);
            && DistinctNames(fs) && Filled(fs) && NamedAmong(fs, fields)
            && (forall i :: 0 <= i < |fs| ==> Fits(fs[i].field, Repeats(decls, fs[i].name)))
  {
    if fields != [] {
      var tail := fields[1..];
      assert forall i :: 0 <= i < |tail| ==> tail[i] == fields[i + 1];
      NormalKeepsNames(p, s, tail, decls);
      NamedAmongMore(NormalFields(p, s, tail, decls), fields);
      assert ShapedField(s, fields[0].field, ChildType(decls, fields[0].name), Repeats(decls, fields[0].name));
      if fields[0].field != Many([]) {
        KeptFirst(NamedField(fields[0].name, NormalField(p, s, fields[0].field, ChildType(decls, fields[0].name))),
                  NormalFields(p, s, tail, decls), fields, decls);
      }
    }
  }

  lemma KeptFirst(f: NamedField, rest: seq<NamedField>, fields: seq<NamedField>, decls: seq<ElementDecl>)
    requires DistinctNames(rest) && Filled(rest) && NamedAmong(rest, fields)
    requires forall i :: 0 <= i < |rest| ==> Fits(rest[i].field, Repeats(decls, rest[i].name)) && rest[i].name != f.name
    requires fields != [] && f.name == fields[0].name && FieldChildren(f) != [] && Fits(f.field, Repeats(decls, f.name))
    ensures var fs := [f] + rest;
            && DistinctNames(fs) && Filled(fs) && NamedAmong(fs, fields)
            && (forall i :: 0 <= i < |fs| ==> Fits(fs[i].field, Repeats(decls, fs[i].name)))
  {
    assert HasName(fields, fields[0].name);
  }

  /** A shaped tree, written and read, comes back as what XML keeps of it. */
  lemma {:induction false} ReadBack(p: Platform, s: Schema, name: string, n: Node, t: string, isRoot: bool, depth: nat)
    requires SafeName(name) && SafeNode(n) && Shaped(s, n, t)
    requires ContentOf(p, s, name, n, t, isRoot, depth).Ok?
    ensures var e := View(ContentOf(p, s, name, n, t, isRoot, depth).value);
            && e.XElement? && e.name == name
            && e.xsiType == (if n.Complex? then n.typeName else None)
            && ReadElement(p, s, e, t, depth) == Ok(Normal(p, s, n, t))
    decreases n, 2
  {
    if n.Leaf? {
      LeafReadBack(p, s, name, n.simple, t, isRoot, depth);
    } else {
      var actual := ActualOf(n, t);
      var decls := Flatten(s, actual).value;
      ComplexView(p, s, name, n, t, isRoot, depth);
      NormalKeepsNames(p, s, n.fields, decls);
      var normal := NormalFields(p, s, n.fields, decls);
      FieldsRegroup(normal, decls);
      var e := View(ContentOf(p, s, name, n, t, isRoot, depth).value);
      ReadOfChildren(p, s, e, t, actual, normal, depth);
    }
  }

  /** What the parser makes of a complex node's element. */
  lemma {:induction false} ComplexView(p: Platform, s: Schema, name: string, n: Node, t: string, isRoot: bool, depth: nat)
    requires n.Complex? && SafeName(name) && SafeNode(n) && Shaped(s, n, t)
    requires ContentOf(p, s, name, n, t, isRoot, depth).Ok?
    ensures var e := View(ContentOf(p, s, name, n, t, isRoot, depth).value);
            var decls := Flatten(s, ActualOf(n, t)).value;
            && e.XElement? && e.name == name && e.xsiType == n.typeName
            && ReadType(s, e.xsiType, t) == ActualOf(n, t)
            && ReadChildren(p, s, e.children, decls, depth + 1) == ChildrenOf(NormalFields(p, s, n.fields, decls))
    decreases n, 1
  {
    var decls := Flatten(s, ActualOf(n, t)).value;
    ViewOfTag(name, n.typeName, isRoot);
    ComplexReadBack(p, s, n, t, decls, depth);
    ComplexContent(p, s, name, n, t, isRoot, depth, decls);
    var tag := Tag(name, TypeAttributes(n.typeName, isRoot), "");
    if n.fields == [] {
      ViewOfEmpty(tag);
    } else {
      ViewOfElement(tag, [CharData("\n")] + FieldsContent(p, s, n.fields, decls, depth + 1).value + [CharData(Pad(depth))]);
    }
  }

  lemma ComplexContent(p: Platform, s: Schema, name: string, n: Node, t: string, isRoot: bool, depth: nat, decls: seq<ElementDecl>)
    requires n.Complex? && IsComplex(s, ActualOf(n, t)) && Flatten(s, ActualOf(n, t)) == Ok(decls)
    requires ContentOf(p, s, name, n, t, isRoot, depth).Ok?
    ensures depth <= MAX_DEPTH
    ensures var c := ContentOf(p, s, name, n, t, isRoot, depth).value;
            var tag := Tag(name, TypeAttributes(n.typeName, isRoot), "");
            if n.fields == [] then c == Empty(tag)
            else
              var cs := FieldsContent(p, s, n.fields, decls, depth + 1);
              cs.Ok? && c == Element(tag, [CharData("\n")] + cs.value + [CharData(Pad(depth))], "")
  {
  }

  lemma ViewOfEmpty(tag: Tag)
    ensures View(Empty(tag)) == XElement(LocalName(tag.name), AttributeValue(tag.attributes, "xsi:type"), [])
  {
  }

  lemma ViewOfElement(tag: Tag, content: seq<Content>)
    ensures View(Element(tag, content, "")) == XElement(LocalName(tag.name), AttributeValue(tag.attributes, "xsi:type"), ViewAll(content))
  {
  }

  lemma LeafReadBack(p: Platform, s: Schema, name: string, leaf: Simple, t: string, isRoot: bool, depth: nat)
    requires SafeName(name) && IsLeafType(s, t) && depth <= MAX_DEPTH
    ensures var e := View(ContentOf(p, s, name, Leaf(leaf), t, isRoot, depth).value);
            e.XElement? && e.name == name && e.xsiType == None && ReadElement(p, s, e, t, depth) == Ok(Leaf(Carried(p, s, leaf, t)))
  {
    var text := AsText(p, leaf);
    ViewOfTag(name, None, isRoot);
    ViewOfLeaf(Tag(name, TypeAttributes(None, isRoot), ""), EscapeXml(text));
    EolOfEscape(text);
    ResolveOfEscape(Eol(text));
  }

  /** The elements of a complex node are read as its normal fields' children. */
  lemma {:induction false} ComplexReadBack(p: Platform, s: Schema, n: Node, t: string, decls: seq<ElementDecl>, depth: nat)
    requires n.Complex? && SafeNode(n) && Shaped(s, n, t) && Flatten(s, ActualOf(n, t)) == Ok(decls)
    requires depth <= MAX_DEPTH
    ensures n.fields == [] ==> NormalFields(p, s, n.fields, decls) == []
    ensures n.fields != [] && FieldsContent(p, s, n.fields, decls, depth + 1).Ok? ==>
              var cs := FieldsContent(p, s, n.fields, decls, depth + 1).value;
              ReadChildren(p, s, ViewAll([CharData("\n")] + cs + [CharData(Pad(depth))]), decls, depth + 1) ==
              ChildrenOf(NormalFields(p, s, n.fields, decls))
    decreases n, 0
  {
    if n.fields != [] && FieldsContent(p, s, n.fields, decls, depth + 1).Ok? {
      var cs := FieldsContent(p, s, n.fields, decls, depth + 1).value;
      var end := [CharData(Pad(depth))];
      assert [CharData("\n")] + cs + end == [CharData("\n")] + (cs + end);
      ReadChildrenSkip(p, s, "\n", cs + end, decls, depth + 1);
      FieldsReadBack(p, s, n.fields, decls, end, depth + 1);
      ReadChildrenSkip(p, s, Pad(depth), [], decls, depth + 1);
      assert [CharData(Pad(depth))] + [] == end;
      var none: seq<Content> := [];
      assert ViewAll(none) == [];
      assert ChildrenOf(NormalFields(p, s, n.fields, decls)) + [] == ChildrenOf(NormalFields(p, s, n.fields, decls));
    }
  }

  lemma {:induction false} FieldsReadBack(
      p: Platform, s: Schema, fields: seq<NamedField>, decls: seq<ElementDecl>, after: seq<Content>, depth: nat)
    requires forall i :: 0 <= i < |fields| ==> SafeName(fields[i].name) && SafeField(fields[i].field)
    requires forall i :: 0 <= i < |fields| ==>
      ShapedField(s, fields[i].field, ChildType(decls, fields[i].name), Repeats(decls, fields[i].name))
    requires FieldsContent(p, s, fields, decls, depth).Ok?
    ensures ReadChildren(p, s, ViewAll(FieldsContent(p, s, fields, decls, depth).value + after), decls, depth) ==
            ChildrenOf(NormalFields(p, s, fields, decls)) + ReadChildren(p, s, ViewAll(after), decls, depth)
    decreases fields
  {
    if fields == [] {
      assert [] + after == after;
      assert [] + ReadChildren(p, s, ViewAll(after), decls, depth) == ReadChildren(p, s, ViewAll(after), decls, depth);
    } else {
      var f, tail := fields[0], fields[1..];
      assert forall i :: 0 <= i < |tail| ==> tail[i] == fields[i + 1];
      var t := ChildType(decls, f.name);
      var cs, rest := FieldContent(p, s, f.name, f.field, t, depth).value, FieldsContent(p, s, tail, decls, depth).value;
      assert cs + rest + after == cs + (rest + after);
      assert ShapedField(s, fields[0].field, t, Repeats(decls, f.name));
      assert SafeName(fields[0].name) && SafeField(fields[0].field);
      FieldReadBack(p, s, f, decls, rest + after, depth);
      FieldsReadBack(p, s, tail, decls, after, depth);
      NormalCons(p, s, f, tail, decls, ReadChildren(p, s, ViewAll(after), decls, depth));
      assert fields == [f] + tail;
    }
  }

  lemma NormalCons(p: Platform, s: Schema, f: NamedField, tail: seq<NamedField>, decls: seq<ElementDecl>, after: seq<Child>)
    ensures var one := NamedField(f.name, NormalField(p, s, f.field, ChildType(decls, f.name)));
            FieldChildren(one) + (ChildrenOf(NormalFields(p, s, tail, decls)) + after) ==
            ChildrenOf(NormalFields(p, s, [f] + tail, decls)) + after
  {
    var one := NamedField(f.name, NormalField(p, s, f.field, ChildType(decls, f.name)));
    var rest := NormalFields(p, s, tail, decls);
    assert ([f] + tail)[1..] == tail;
    if f.field == Many([]) {
      assert FieldChildren(one) == [];
      PlusNothing(ChildrenOf(rest) + after);
    } else {
      ChildrenCons(one, rest);
      Associate(FieldChildren(one), ChildrenOf(rest), after);
    }
  }

  lemma {:induction false} FieldReadBack(
      p: Platform, s: Schema, f: NamedField, decls: seq<ElementDecl>, after: seq<Content>, depth: nat)
    requires SafeName(f.name) && SafeField(f.field)
    requires ShapedField(s, f.field, ChildType(decls, f.name), Repeats(decls, f.name))
    requires FieldContent(p, s, f.name, f.field, ChildType(decls, f.name), depth).Ok?
    ensures var t := ChildType(decls, f.name);
            ReadChildren(p, s, ViewAll(FieldContent(p, s, f.name, f.field, t, depth).value + after), decls, depth) ==
            FieldChildren(NamedField(f.name, NormalField(p, s, f.field, t))) + ReadChildren(p, s, ViewAll(after), decls, depth)
    decreases f, 2
  {
    var t := ChildType(decls, f.name);
    match f.field
    case One(n) =>
      ReadBack(p, s, f.name, n, t, false, depth);
      ReadLine(p, s, ContentOf(p, s, f.name, n, t, false, depth).value, after, decls, depth, depth);
    case Many(ns) =>
      ItemsReadBack(p, s, f.name, ns, decls, after, depth);
  }

  lemma ItemsSpelled(p: Platform, s: Schema, name: string, ns: seq<Node>, t: string, depth: nat, after: seq<Content>)
    requires ns != [] && ItemsContent(p, s, name, ns, t, depth).Ok?
    ensures ContentOf(p, s, name, ns[0], t, false, depth).Ok? && ItemsContent(p, s, name, ns[1..], t, depth).Ok?
    ensures ItemsContent(p, s, name, ns, t, depth).value + after ==
            Line(ContentOf(p, s, name, ns[0], t, false, depth).value, depth) + (ItemsContent(p, s, name, ns[1..], t, depth).value + after)
  {
  }

  lemma {:induction false} ItemsReadBack(
      p: Platform, s: Schema, name: string, ns: seq<Node>, decls: seq<ElementDecl>, after: seq<Content>, depth: nat)
    requires SafeName(name) && (forall i :: 0 <= i < |ns| ==> SafeNode(ns[i]) && Shaped(s, ns[i], ChildType(decls, name)))
    requires ItemsContent(p, s, name, ns, ChildType(decls, name), depth).Ok?
    ensures var t := ChildType(decls, name);
            ReadChildren(p, s, ViewAll(ItemsContent(p, s, name, ns, t, depth).value + after), decls, depth) ==
            FieldChildren(NamedField(name, Many(NormalItems(p, s, ns, t)))) + ReadChildren(p, s, ViewAll(after), decls, depth)
    decreases ns
  {
    var t := ChildType(decls, name);
    var tail := ReadChildren(p, s, ViewAll(after), decls, depth);
    if ns == [] {
      assert [] + after == after;
      assert FieldChildren(NamedField(name, Many([]))) + tail == tail;
    } else {
      assert forall i :: 0 <= i < |ns[1..]| ==> ns[1..][i] == ns[i + 1];
      var c := ContentOf(p, s, name, ns[0], t, false, depth).value;
      var rest := ItemsContent(p, s, name, ns[1..], t, depth).value;
      ReadBack(p, s, name, ns[0], t, false, depth);
      ItemsSpelled(p, s, name, ns, t, depth, after);
      ReadLine(p, s, c, rest + after, decls, depth, depth);
      ItemsReadBack(p, s, name, ns[1..], decls, after, depth);
      ItemsCons(name, Normal(p, s, ns[0], t), NormalItems(p, s, ns[1..], t), tail);
    }
  }

  lemma ItemsCons(name: string, first: Node, more: seq<Node>, tail: seq<Child>)
    ensures [Child(name, Ok(first))] + (FieldChildren(NamedField(name, Many(more))) + tail) ==
            FieldChildren(NamedField(name, Many([first] + more))) + tail
  {
    assert FieldChildren(NamedField(name, Many([first] + more))) ==
           [Child(name, Ok(first))] + FieldChildren(NamedField(name, Many(more)));
  }

  /** Exactly what a trip through XML does to a shaped message without a root override: it
      is written unless it has more than 97 levels; on the way back in it is refused as too
      deep if it has 97, and as malformed if a leaf holds a character XML does not allow;
      otherwise it comes back as what XML keeps of it. */
  lemma XmlTrip(p: Platform, s: Schema, m: Message)
    requires m.name in s.globalElements && SafeName(m.name) && SafeNode(m.body)
    requires Shaped(s, m.body, s.globalElements[m.name])
    requires m.body.Complex? ==> m.body.typeName.None?
    ensures ToXml(p, s, m).Ok? <==> NodeHeight(m.body) <= MAX_DEPTH + 1
    ensures ToXml(p, s, m).Ok? ==>
              FromXml(p, s, ToXml(p, s, m).value) ==
              if NodeHeight(m.body) > MAX_DEPTH then Err(TooDeep)
              else if !Spellable(p, m.body) then Err(Malformed)
              else Ok(Message(m.name, Normal(p, s, m.body, s.globalElements[m.name])))
  {
    var t := s.globalElements[m.name];
    WritesByHeight(p, s, m.name, m.body, t, true, 0);
    if ToXml(p, s, m).Ok? {
      var d := ToXml(p, s, m).value;
      WrittenIsSound(p, s, m, d, MAX_DEPTH);
      WrittenIsWellFormed(p, s, m, d);
      ReadBack(p, s, m.name, m.body, t, true, 0);
    }
  }

  lemma ReadOfChildren(p: Platform, s: Schema, e: XNode, t: string, actual: string, normal: seq<NamedField>, depth: nat)
    requires e.XElement? && depth <= MAX_DEPTH && !IsLeafType(s, t) && ReadType(s, e.xsiType, t) == actual && Flatten(s, actual).Ok?
    requires var decls := Flatten(s, actual).value;
             && ReadChildren(p, s, e.children, decls, depth + 1) == ChildrenOf(normal)
             && BuildFields(Order(ChildrenOf(normal)), ChildrenOf(normal), decls) == Ok(normal)
    ensures ReadElement(p, s, e, t, depth) == Ok(Complex(Override(actual, t), normal))
  {
  }

  /** An overriding node's element, read as the type it names, gives its fields alone. */
  lemma OverriddenReadBack(p: Platform, s: Schema, name: string, n: Node, t: string, isRoot: bool, depth: nat)
    requires n.Complex? && n.typeName.Some? && !IsLeafType(s, n.typeName.value)
    requires SafeName(name) && SafeNode(n) && Shaped(s, n, t) && ContentOf(p, s, name, n, t, isRoot, depth).Ok?
    ensures var e, u := View(ContentOf(p, s, name, n, t, isRoot, depth).value), n.typeName.value;
            && e.XElement? && e.name == name && e.xsiType == Some(u) && LocalName(u) == u && Flatten(s, u).Ok?
            && ReadElement(p, s, e, u, depth) == Ok(Complex(None, NormalFields(p, s, n.fields, Flatten(s, u).value)))
  {
    var u := n.typeName.value;
    var decls := Flatten(s, u).value;
    ComplexView(p, s, name, n, t, isRoot, depth);
    ComplexContent(p, s, name, n, t, isRoot, depth, decls);
    OverriddenFields(p, s, n.fields, decls, u, t);
    OverriddenRead(p, s, View(ContentOf(p, s, name, n, t, isRoot, depth).value), u, NormalFields(p, s, n.fields, decls), depth);
  }

  lemma OverriddenRead(p: Platform, s: Schema, e: XNode, u: string, normal: seq<NamedField>, depth: nat)
    requires SafeName(u) && e.XElement? && e.xsiType == Some(u) && !IsLeafType(s, u) && Flatten(s, u).Ok? && depth <= MAX_DEPTH
    requires var decls := Flatten(s, u).value;
             && ReadChildren(p, s, e.children, decls, depth + 1) == ChildrenOf(normal)
             && BuildFields(Order(ChildrenOf(normal)), ChildrenOf(normal), decls) == Ok(normal)
    ensures LocalName(u) == u && ReadElement(p, s, e, u, depth) == Ok(Complex(None, normal))
  {
    NameAsValue(u);
    ReadOfChildren(p, s, e, u, u, normal, depth);
  }

  lemma OverriddenFields(p: Platform, s: Schema, fields: seq<NamedField>, decls: seq<ElementDecl>, u: string, t: string)
    requires Shaped(s, Complex(Some(u), fields), t) && Flatten(s, u) == Ok(decls)
    ensures var normal := NormalFields(p, s, fields, decls);
            BuildFields(Order(ChildrenOf(normal)), ChildrenOf(normal), decls) == Ok(normal)
  {
    NormalKeepsNames(p, s, fields, decls);
    FieldsRegroup(NormalFields(p, s, fields, decls), decls);
  }

  /** A root override is written but not read back as one: the message comes home with the
      same fields and no override, so validation then holds it to the declared type. */
  lemma RootOverrideIsLost(p: Platform, s: Schema, m: Message)
    requires m.name in s.globalElements && SafeName(m.name) && SafeNode(m.body)
    requires Shaped(s, m.body, s.globalElements[m.name]) && NodeHeight(m.body) <= MAX_DEPTH
    requires m.body.Complex? && m.body.typeName.Some? && !IsLeafType(s, m.body.typeName.value)
    ensures ToXml(p, s, m).Ok? && Flatten(s, m.body.typeName.value).Ok?
    ensures var again := FromXml(p, s, ToXml(p, s, m).value);
            && again != Ok(m)
            && again == if !Spellable(p, m.body) then Err(Malformed)
                        else Ok(Message(m.name, Complex(None, NormalFields(p, s, m.body.fields, Flatten(s, m.body.typeName.value).value))))
  {
    var t := s.globalElements[m.name];
    WritesByHeight(p, s, m.name, m.body, t, true, 0);
    WrittenIsSound(p, s, m, ToXml(p, s, m).value, MAX_DEPTH);
    WrittenIsWellFormed(p, s, m, ToXml(p, s, m).value);
    OverriddenReadBack(p, s, m.name, m.body, t, true, 0);
  }
}
