/** `read_element` as it runs: children grouped by name in a map beside a list of the names
    in order, then each group read (crates/oa-gateway-uci/src/xml.rs). */
module UciXmlReader {
  import opened Wrappers
  import opened UciText
  import opened Primitive
  import opened UciSchema
  import opened UciFacets
  import opened UciInstance
  import opened UciXml
  import opened UciJsonLoops

  /** The children that are elements. */
  function Elements(children: seq<XNode>): (r: seq<XNode>)
    ensures forall i :: 0 <= i < |r| ==> r[i].XElement? && r[i] in children
  {
    if children == [] then []
    else if children[0].XElement? then [children[0]] + Elements(children[1..])
    else Elements(children[1..])
  }

  function Reading(p: Platform, s: Schema, e: XNode, decls: seq<ElementDecl>, depth: nat): Child
    requires e.XElement?
  {
    Child(e.name, ReadElement(p, s, e, ChildType(decls, e.name), depth))
  }

  function Readings(p: Platform, s: Schema, es: seq<XNode>, decls: seq<ElementDecl>, depth: nat): (cs: seq<Child>)
    requires forall i :: 0 <= i < |es| ==> es[i].XElement?
    ensures |cs| == |es|
  {
    seq(|es|, i requires 0 <= i < |es| => Reading(p, s, es[i], decls, depth))
  }

  lemma ReadingsCons(p: Platform, s: Schema, e: XNode, es: seq<XNode>, decls: seq<ElementDecl>, depth: nat)
    requires e.XElement? && forall i :: 0 <= i < |es| ==> es[i].XElement?
    ensures Readings(p, s, [e] + es, decls, depth) == [Reading(p, s, e, decls, depth)] + Readings(p, s, es, decls, depth)
  {
  }

  lemma {:induction false} ChildrenAreReadings(p: Platform, s: Schema, children: seq<XNode>, decls: seq<ElementDecl>, depth: nat)
    ensures ReadChildren(p, s, children, decls, depth) == Readings(p, s, Elements(children), decls, depth)
  {
    if children != [] {
      ChildrenAreReadings(p, s, children[1..], decls, depth);
      if children[0].XElement? { ReadingsCons(p, s, children[0], Elements(children[1..]), decls, depth); }
    }
  }

  /** Elements of one name, in order. */
  function NamedElements(es: seq<XNode>, name: string): (r: seq<XNode>)
    requires forall i :: 0 <= i < |es| ==> es[i].XElement?
    ensures forall i :: 0 <= i < |r| ==> r[i].XElement? && r[i].name == name && r[i] in es
  {
    if es == [] then []
    else NamedElements(es[..|es| - 1], name) + if es[|es| - 1].name == name then [es[|es| - 1]] else []
  }

  function Results(p: Platform, s: Schema, es: seq<XNode>, t: string, depth: nat): (rs: seq<Result<Node, UciError>>)
    requires forall i :: 0 <= i < |es| ==> es[i].XElement?
    ensures |rs| == |es|
  {
    seq(|es|, i requires 0 <= i < |es| => ReadElement(p, s, es[i], t, depth))
  }

  lemma ResultsAppend(p: Platform, s: Schema, es: seq<XNode>, e: XNode, t: string, depth: nat)
    requires e.XElement? && forall i :: 0 <= i < |es| ==> es[i].XElement?
    ensures Results(p, s, es + [e], t, depth) == Results(p, s, es, t, depth) + [ReadElement(p, s, e, t, depth)]
    ensures es + [] == es
  {
  }

  lemma ReadingsFront(p: Platform, s: Schema, es: seq<XNode>, decls: seq<ElementDecl>, depth: nat)
    requires es != [] && forall i :: 0 <= i < |es| ==> es[i].XElement?
    ensures var k, cs := |es| - 1, Readings(p, s, es, decls, depth);
            cs[..k] == Readings(p, s, es[..k], decls, depth) && cs[k] == Reading(p, s, es[k], decls, depth)
  {
  }

  lemma {:induction false} GroupedAreResults(p: Platform, s: Schema, es: seq<XNode>, decls: seq<ElementDecl>, depth: nat, name: string)
    requires forall i :: 0 <= i < |es| ==> es[i].XElement?
    ensures Grouped(Readings(p, s, es, decls, depth), name) == Results(p, s, NamedElements(es, name), ChildType(decls, name), depth)
  {
    if es != [] {
      var k := |es| - 1;
      GroupedAreResults(p, s, es[..k], decls, depth, name);
      ReadingsFront(p, s, es, decls, depth);
      ResultsAppend(p, s, NamedElements(es[..k], name), es[k], ChildType(decls, name), depth);
    }
  }

  /** The grouping loop. */
  method GroupElements(es: seq<XNode>) returns (groups: map<string, seq<XNode>>, order: seq<string>)
    requires forall i :: 0 <= i < |es| ==> es[i].XElement?
    ensures order == NamesInOrder(es)
    ensures forall n :: n in order ==> n in groups
    ensures forall n :: n in groups ==> groups[n] == NamedElements(es, n)
  {
    groups, order := map[], [];
    for i := 0 to |es|
      invariant order == NamesInOrder(es[..i])
      invariant forall n :: n in groups <==> n in order
      invariant forall n :: n !in groups ==> NamedElements(es[..i], n) == []
      invariant forall n :: n in groups ==> groups[n] == NamedElements(es[..i], n)
    {
      assert es[..i + 1][..i] == es[..i];
      var child := es[i];
      var before := if child.name in groups then groups[child.name] else [];
      if child.name !in groups { order := order + [child.name]; }
      groups := groups[child.name := before + [child]];
    }
    assert es[..|es|] == es;
  }

  function NamesInOrder(es: seq<XNode>): seq<string>
    requires forall i :: 0 <= i < |es| ==> es[i].XElement?
  {
    if es == [] then []
    else
      var before, last := NamesInOrder(es[..|es| - 1]), es[|es| - 1].name;
      if last in before then before else before + [last]
  }

  lemma {:induction false} OrderIsNames(p: Platform, s: Schema, es: seq<XNode>, decls: seq<ElementDecl>, depth: nat)
    requires forall i :: 0 <= i < |es| ==> es[i].XElement?
    ensures Order(Readings(p, s, es, decls, depth)) == NamesInOrder(es)
  {
    if es != [] {
      var k := |es| - 1;
      OrderIsNames(p, s, es[..k], decls, depth);
      assert Readings(p, s, es, decls, depth)[..k] == Readings(p, s, es[..k], decls, depth);
    }
  }

  /** `read_element` */
  method ReadXml(p: Platform, s: Schema, e: XNode, t: string, depth: nat) returns (r: Result<Node, UciError>)
    requires e.XElement?
    ensures r == ReadElement(p, s, e, t, depth)
    decreases e, 2
  {
    if depth > MAX_DEPTH { return Err(TooDeep); }
    if IsLeafType(s, t) {
      var primitive := PrimitiveOf(s, t);
      return Ok(Leaf(ParseText(p, KindOf(primitive), Trim(TextOf(e)))));
    }
    var actual := ReadType(s, e.xsiType, t);
    var flat := Flatten(s, actual);
    if flat.Err? { return Err(FromSchema(flat.error)); }
    var fields := ReadFields(p, s, e, flat.value, depth + 1);
    return if fields.Ok? then Ok(Complex(Override(actual, t), fields.value)) else Err(fields.error);
  }

  /** The children of an element as fields, in the order their names first appear. */
  method ReadFields(p: Platform, s: Schema, e: XNode, decls: seq<ElementDecl>, depth: nat) returns (r: Result<seq<NamedField>, UciError>)
    requires e.XElement?
    ensures var cs := ReadChildren(p, s, e.children, decls, depth);
            r == BuildFields(Order(cs), cs, decls)
    decreases e, 1
  {
    var es := Elements(e.children);
    var groups, order := GroupElements(es);
    ghost var cs := ReadChildren(p, s, e.children, decls, depth);
    ChildrenAreReadings(p, s, e.children, decls, depth);
    OrderIsNames(p, s, es, decls, depth);
    var fields: seq<NamedField> := [];
    ThenNothing(BuildFields(order, cs, decls));
    assert order[0..] == order;
    for i := 0 to |order|
      invariant BuildFields(order, cs, decls) == Then(fields, BuildFields(order[i..], cs, decls))
    {
      var name := order[i];
      var kids := groups[name];
      assert forall k :: 0 <= k < |kids| ==> kids[k] in e.children;
      GroupedAreResults(p, s, es, decls, depth, name);
      var nodes := ReadGroup(p, s, e, kids, ChildType(decls, name), depth);
      BuildNext(order, i, cs, decls, nodes);
      if nodes.Err? { return Err(nodes.error); }
      var field := FieldFor(Repeats(decls, name), nodes.value);
      ThenOne(fields, NamedField(name, field), BuildFields(order[i + 1..], cs, decls));
      fields := fields + [NamedField(name, field)];
    }
    assert fields + [] == fields;
    return Ok(fields);
  }

  lemma BuildNext(names: seq<string>, i: nat, cs: seq<Child>, decls: seq<ElementDecl>, nodes: Result<seq<Node>, UciError>)
    requires i < |names| && Collect(Grouped(cs, names[i])) == nodes
    ensures BuildFields(names[i..], cs, decls) ==
            if nodes.Err? then Err(nodes.error)
            else Then([NamedField(names[i], FieldFor(Repeats(decls, names[i]), nodes.value))], BuildFields(names[i + 1..], cs, decls))
  {
    assert names[i..][0] == names[i] && names[i..][1..] == names[i + 1..];
  }

  /** The elements of one group, stopping at the first that cannot be read. */
  method ReadGroup(p: Platform, s: Schema, parent: XNode, kids: seq<XNode>, t: string, depth: nat)
      returns (r: Result<seq<Node>, UciError>)
    requires parent.XElement? && forall k :: 0 <= k < |kids| ==> kids[k].XElement? && kids[k] in parent.children
    ensures r == Collect(Results(p, s, kids, t, depth))
    decreases parent, 0
  {
    ghost var rs := Results(p, s, kids, t, depth);
    var nodes: seq<Node> := [];
    ThenNothing(Collect(rs));
    assert rs[0..] == rs;
    for i := 0 to |kids|
      invariant Collect(rs) == Then(nodes, Collect(rs[i..]))
    {
      assert rs[i..][0] == rs[i] && rs[i..][1..] == rs[i + 1..];
      var j :| 0 <= j < |parent.children| && parent.children[j] == kids[i];
      var node := ReadXml(p, s, parent.children[j], t, depth);
      if node.Err? { return Err(node.error); }
      ThenOne(nodes, node.value, Collect(rs[i + 1..]));
      nodes := nodes + [node.value];
    }
    assert nodes + [] == nodes;
    return Ok(nodes);
  }
}
