/** What the two readers make of a whole document: every member, every element, in order, and
    how often each element occurs. */
module UciContents {
  import opened Wrappers
  import opened UciText
  import opened Primitive
  import opened UciSchema
  import opened UciFacets
  import opened UciInstance
  import opened UciJson
  import opened XmlScan
  import opened UciXml
  import opened UciXmlReader
  import opened UciShape
  import opened UciValidate
  import opened UciMeaning

  function Primitively(s: Schema, t: string): string {
    Reduce(s, t, MAX_SIMPLE_DEPTH)
  }

  // ---- JSON ----------------------------------------------------------------------------

  /** A leaf that denotes what a scalar denotes under its type, rounded integers aside. */
  ghost predicate LeafConveys(p: Platform, t: string, leaf: Simple, v: Json) {
    && Scalar(v)
    && (Rounded(p, t, v) || Meant(p, KindOf(t), AsText(p, leaf)) == Meant(p, KindOf(t), ScalarText(p, v)))
    && (v.JString? ==> (leaf.Str? <==> !TypedByJson(p, t, v.s)))
  }

  /** The type an object claims with `$type`, or else the declared one. */
  predicate Claims(ms: seq<Member>, t: string, actual: string) {
    if exists i :: 0 <= i < |ms| && ms[i].key == TYPE_KEY && ms[i].value.JString?
    then Member(TYPE_KEY, JString(actual)) in ms
    else actual == t
  }

  /** A node that says what a value says: the same members under the same names in the same
      order, `$type` aside, each as often as it is given. */
  ghost predicate Conveys(p: Platform, s: Schema, n: Node, v: Json, t: string)
    decreases n, 1
  {
    match n
    case Leaf(x) => IsLeafType(s, t) && LeafConveys(p, Primitively(s, t), x, v)
    case Complex(typeName, fields) =>
      && !IsLeafType(s, t) && v.JObject? && Claims(v.members, t, ActualOf(n, t))
      && (typeName.Some? ==> typeName.value != t)
      && Flatten(s, ActualOf(n, t)).Ok?
      && MembersConvey(p, s, fields, Named(v.members), Flatten(s, ActualOf(n, t)).value)
  }

  ghost predicate MembersConvey(p: Platform, s: Schema, fields: seq<NamedField>, ms: seq<Member>, decls: seq<ElementDecl>)
    decreases fields, 0
  {
    && |fields| == |ms|
    && forall i :: 0 <= i < |fields| ==>
         && fields[i].name == ms[i].key
         && FieldConveys(p, s, fields[i].field, ms[i].value, ChildType(decls, ms[i].key), Repeats(decls, ms[i].key))
  }

  ghost predicate FieldConveys(p: Platform, s: Schema, f: Field, v: Json, t: string, repeats: bool)
    decreases f, 2
  {
    match f
    case One(n) => !repeats && Conveys(p, s, n, v, t)
    case Many(ns) =>
      var items := if v.JArray? then v.items else [v];
      repeats && |ns| == |items| && forall i :: 0 <= i < |ns| ==> Conveys(p, s, ns[i], items[i], t)
  }

  lemma {:induction false} ClaimIsFound(ms: seq<Member>, t: string)
    requires Ascending(ms)
    ensures Claims(ms, t, ActualType(ms, t))
  {
    LookupFinds(ms, TYPE_KEY);
    if i :| 0 <= i < |ms| && ms[i].key == TYPE_KEY && ms[i].value.JString? {
      assert Lookup(ms, TYPE_KEY) == Some(ms[i].value);
      assert ms[i] == Member(TYPE_KEY, JString(ActualType(ms, t)));
    }
  }

  lemma {:induction false} LookupFinds(ms: seq<Member>, key: string)
    requires Ascending(ms)
    ensures forall i :: 0 <= i < |ms| && ms[i].key == key ==> Lookup(ms, key) == Some(ms[i].value)
    ensures Lookup(ms, key).Some? ==> Member(key, Lookup(ms, key).value) in ms
  {
    if ms != [] {
      var rest := ms[1..];
      assert forall i :: 0 <= i < |rest| ==> rest[i] == ms[i + 1];
      LookupFinds(rest, key);
      forall i | 0 < i < |ms| ensures ms[i].key != ms[0].key && ms[i] == rest[i - 1] { BeforeTotal(ms[0].key, ms[i].key); }
    }
  }

  /** What is read says what was given. */
  lemma {:induction false} JsonIsConveyed(p: Platform, s: Schema, v: Json, t: string, depth: nat)
    requires Faithful(p) && ByValue(p) && IsMap(v) && ReadNode(p, s, v, t, depth).Ok?
    ensures Conveys(p, s, ReadNode(p, s, v, t, depth).value, v, t)
    decreases v, 1
  {
    if IsLeafType(s, t) {
      JsonLeafHolds(p, v, Primitively(s, t));
      JsonLeafMeans(p, v, Primitively(s, t));
    } else {
      var actual := ActualType(v.members, t);
      ClaimIsFound(v.members, t);
      MembersAreConveyed(p, s, v.members, Flatten(s, actual).value, depth + 1);
    }
  }

  lemma {:induction false} MembersAreConveyed(p: Platform, s: Schema, ms: seq<Member>, decls: seq<ElementDecl>, depth: nat)
    requires Faithful(p) && ByValue(p) && ReadMembers(p, s, ms, decls, depth).Ok?
    requires forall i :: 0 <= i < |ms| ==> IsMap(ms[i].value)
    ensures MembersConvey(p, s, ReadMembers(p, s, ms, decls, depth).value, Named(ms), decls)
    decreases ms
  {
    if ms != [] {
      assert forall i :: 0 <= i < |ms[1..]| ==> ms[1..][i] == ms[i + 1];
      MembersAreConveyed(p, s, ms[1..], decls, depth);
      if ms[0].key != TYPE_KEY {
        var t, repeats := ChildType(decls, ms[0].key), Repeats(decls, ms[0].key);
        FieldIsConveyed(p, s, ms[0].value, t, repeats, depth);
        ConveyCons(p, s, ReadField(p, s, ms[0].value, t, repeats, depth).value, ms[0],
                   ReadMembers(p, s, ms[1..], decls, depth).value, Named(ms[1..]), decls);
      }
    }
  }

  lemma ConveyCons(p: Platform, s: Schema, f: Field, m: Member, fields: seq<NamedField>, ms: seq<Member>, decls: seq<ElementDecl>)
    requires FieldConveys(p, s, f, m.value, ChildType(decls, m.key), Repeats(decls, m.key)) && MembersConvey(p, s, fields, ms, decls)
    ensures MembersConvey(p, s, [NamedField(m.key, f)] + fields, [m] + ms, decls)
  {
    var all, every := [NamedField(m.key, f)] + fields, [m] + ms;
    forall i | 0 <= i < |all|
      ensures all[i].name == every[i].key
      ensures FieldConveys(p, s, all[i].field, every[i].value, ChildType(decls, every[i].key), Repeats(decls, every[i].key))
    {
      if i > 0 { assert all[i] == fields[i - 1] && every[i] == ms[i - 1]; }
    }
  }

  lemma {:induction false} FieldIsConveyed(p: Platform, s: Schema, v: Json, t: string, repeats: bool, depth: nat)
    requires Faithful(p) && ByValue(p) && IsMap(v) && ReadField(p, s, v, t, repeats, depth).Ok?
    ensures FieldConveys(p, s, ReadField(p, s, v, t, repeats, depth).value, v, t, repeats)
    decreases v, 2
  {
    if repeats && v.JArray? { ItemsAreConveyed(p, s, v.items, t, depth); }
    else {
      JsonIsConveyed(p, s, v, t, depth);
      if v.JArray? { ArrayIsNoNode(p, s, v, t, depth); }
    }
  }

  lemma ArrayIsNoNode(p: Platform, s: Schema, v: Json, t: string, depth: nat)
    requires v.JArray?
    ensures ReadNode(p, s, v, t, depth).Err?
  {
  }

  lemma {:induction false} ItemsAreConveyed(p: Platform, s: Schema, vs: seq<Json>, t: string, depth: nat)
    requires Faithful(p) && ByValue(p) && ReadItems(p, s, vs, t, depth).Ok?
    requires forall i :: 0 <= i < |vs| ==> IsMap(vs[i])
    ensures var ns := ReadItems(p, s, vs, t, depth).value;
            |ns| == |vs| && forall i :: 0 <= i < |ns| ==> Conveys(p, s, ns[i], vs[i], t)
    decreases vs
  {
    if vs != [] {
      assert forall i :: 0 <= i < |vs[1..]| ==> vs[1..][i] == vs[i + 1];
      JsonIsConveyed(p, s, vs[0], t, depth);
      ItemsAreConveyed(p, s, vs[1..], t, depth);
    }
  }

  // ---- What JSON is refused ------------------------------------------------------------

  /** A value the reader takes: scalars where leaves are declared, objects of a usable type
      elsewhere, nothing too deep. */
  predicate Fits(s: Schema, v: Json, t: string, depth: nat)
    decreases v, 1
  {
    && depth <= MAX_DEPTH
    && if IsLeafType(s, t) then Scalar(v)
       else
         && v.JObject? && IsComplex(s, ActualType(v.members, t)) && Flatten(s, ActualType(v.members, t)).Ok?
         && var decls := Flatten(s, ActualType(v.members, t)).value;
            forall i :: 0 <= i < |v.members| && v.members[i].key != TYPE_KEY ==>
              FieldFits(s, v.members[i].value, ChildType(decls, v.members[i].key), Repeats(decls, v.members[i].key), depth + 1)
  }

  predicate FieldFits(s: Schema, v: Json, t: string, repeats: bool, depth: nat)
    decreases v, 2
  {
    if repeats && v.JArray? then forall i :: 0 <= i < |v.items| ==> Fits(s, v.items[i], t, depth)
    else Fits(s, v, t, depth)
  }

  lemma {:induction false} FitsExactly(p: Platform, s: Schema, v: Json, t: string, depth: nat)
    ensures ReadNode(p, s, v, t, depth).Ok? <==> Fits(s, v, t, depth)
    decreases v, 1
  {
    JsonLeafHolds(p, v, Primitively(s, t));
    if depth <= MAX_DEPTH && !IsLeafType(s, t) && v.JObject? && Flatten(s, ActualType(v.members, t)).Ok? {
      MembersFit(p, s, v.members, Flatten(s, ActualType(v.members, t)).value, depth + 1);
    }
  }

  lemma {:induction false} MembersFit(p: Platform, s: Schema, ms: seq<Member>, decls: seq<ElementDecl>, depth: nat)
    ensures ReadMembers(p, s, ms, decls, depth).Ok? <==>
            forall i :: 0 <= i < |ms| && ms[i].key != TYPE_KEY ==>
              FieldFits(s, ms[i].value, ChildType(decls, ms[i].key), Repeats(decls, ms[i].key), depth)
    decreases ms
  {
    if ms != [] {
      assert forall i :: 0 < i < |ms| ==> ms[i] == ms[1..][i - 1];
      MembersFit(p, s, ms[1..], decls, depth);
      var v, t, repeats := ms[0].value, ChildType(decls, ms[0].key), Repeats(decls, ms[0].key);
      if repeats && v.JArray? { ItemsFit(p, s, v.items, t, depth); } else { FitsExactly(p, s, v, t, depth); }
    }
  }

  lemma {:induction false} ItemsFit(p: Platform, s: Schema, vs: seq<Json>, t: string, depth: nat)
    ensures ReadItems(p, s, vs, t, depth).Ok? <==> forall i :: 0 <= i < |vs| ==> Fits(s, vs[i], t, depth)
    decreases vs
  {
    if vs != [] {
      assert forall i :: 0 < i < |vs| ==> vs[i] == vs[1..][i - 1];
      FitsExactly(p, s, vs[0], t, depth);
      ItemsFit(p, s, vs[1..], t, depth);
    }
  }

  /** What reading below the root fails with. */
  predicate Below(e: UciError) {
    e.TooDeep? || e.CannotMap? || e.NoSuchType? || e.Cyclic?
  }

  lemma {:induction false} ReadFails(p: Platform, s: Schema, v: Json, t: string, depth: nat)
    ensures ReadNode(p, s, v, t, depth).Err? ==> Below(ReadNode(p, s, v, t, depth).error)
    decreases v, 1
  {
    if depth <= MAX_DEPTH && !IsLeafType(s, t) && v.JObject? && Flatten(s, ActualType(v.members, t)).Ok? {
      MembersFail(p, s, v.members, Flatten(s, ActualType(v.members, t)).value, depth + 1);
    }
  }

  lemma {:induction false} MembersFail(p: Platform, s: Schema, ms: seq<Member>, decls: seq<ElementDecl>, depth: nat)
    ensures ReadMembers(p, s, ms, decls, depth).Err? ==> Below(ReadMembers(p, s, ms, decls, depth).error)
    decreases ms
  {
    if ms != [] {
      MembersFail(p, s, ms[1..], decls, depth);
      var v, t := ms[0].value, ChildType(decls, ms[0].key);
      ReadFails(p, s, v, t, depth);
      if v.JArray? { ItemsFail(p, s, v.items, t, depth); }
    }
  }

  lemma {:induction false} ItemsFail(p: Platform, s: Schema, vs: seq<Json>, t: string, depth: nat)
    ensures ReadItems(p, s, vs, t, depth).Err? ==> Below(ReadItems(p, s, vs, t, depth).error)
    decreases vs
  {
    if vs != [] {
      ReadFails(p, s, vs[0], t, depth);
      ItemsFail(p, s, vs[1..], t, depth);
    }
  }

  /** What is wrong at the root, told apart. */
  lemma RootRefused(p: Platform, s: Schema, v: Json)
    ensures FromJson(p, s, v) == Err(NotAnObject) <==> !v.JObject?
    ensures FromJson(p, s, v) == Err(NotOneMember) <==> v.JObject? && |v.members| != 1
    ensures forall name :: FromJson(p, s, v) == Err(UnknownElement(name)) <==>
              v.JObject? && |v.members| == 1 && v.members[0].key == name && name !in s.globalElements
  {
    if v.JObject? && |v.members| == 1 && GlobalType(s, v.members[0].key).Some? {
      ReadFails(p, s, v.members[0].value, GlobalType(s, v.members[0].key).value, 0);
    }
  }

  /** The whole of `from_json`: one member, named by a global element, whose value fits; and
      then the message says what that member says. */
  lemma JsonMessage(p: Platform, s: Schema, v: Json)
    requires Faithful(p) && ByValue(p) && IsMap(v)
    ensures FromJson(p, s, v).Ok? <==>
              && v.JObject? && |v.members| == 1 && GlobalType(s, v.members[0].key).Some?
              && Fits(s, v.members[0].value, GlobalType(s, v.members[0].key).value, 0)
    ensures FromJson(p, s, v).Ok? ==>
              var m := FromJson(p, s, v).value;
              m.name == v.members[0].key && Conveys(p, s, m.body, v.members[0].value, s.globalElements[m.name])
  {
    if v.JObject? && |v.members| == 1 && GlobalType(s, v.members[0].key).Some? {
      FitsExactly(p, s, v.members[0].value, GlobalType(s, v.members[0].key).value, 0);
      if FromJson(p, s, v).Ok? { JsonIsConveyed(p, s, v.members[0].value, GlobalType(s, v.members[0].key).value, 0); }
    }
  }

  // ---- XML -----------------------------------------------------------------------------

  /** A node that says what an element says: a leaf by its text, anything else by its child
      elements, one field for each name in the order names first appear, holding as many nodes
      as there are elements of that name, in their order. */
  ghost predicate Shows(p: Platform, s: Schema, n: Node, e: XNode, t: string)
    requires e.XElement?
    decreases n, 1
  {
    match n
    case Leaf(x) =>
      var kind, text := LeafKind(s, t), Trim(TextOf(e));
      && IsLeafType(s, t)
      && Meant(p, kind, AsText(p, x)) == Meant(p, kind, text) && (x.Str? <==> !TypedByXml(p, kind, text))
    case Complex(typeName, fields) =>
      && !IsLeafType(s, t) && ActualOf(n, t) == ReadType(s, e.xsiType, t) && (typeName.Some? ==> typeName.value != t)
      && Flatten(s, ActualOf(n, t)).Ok?
      && FieldNames(fields) == NamesInOrder(Elements(e.children))
      && FieldsShow(p, s, fields, Elements(e.children), Flatten(s, ActualOf(n, t)).value)
  }

  ghost predicate FieldsShow(p: Platform, s: Schema, fields: seq<NamedField>, es: seq<XNode>, decls: seq<ElementDecl>)
    requires forall i :: 0 <= i < |es| ==> es[i].XElement?
    decreases fields, 0
  {
    forall i :: 0 <= i < |fields| ==>
      FieldShows(p, s, fields[i].field, NamedElements(es, fields[i].name), ChildType(decls, fields[i].name), Repeats(decls, fields[i].name))
  }

  ghost predicate FieldShows(p: Platform, s: Schema, f: Field, es: seq<XNode>, t: string, repeats: bool)
    requires forall i :: 0 <= i < |es| ==> es[i].XElement?
    decreases f, 2
  {
    match f
    case One(n) => !repeats && |es| == 1 && Shows(p, s, n, es[0], t)
    case Many(ns) =>
      (repeats || |es| != 1) && |ns| == |es| && forall i :: 0 <= i < |ns| ==> Shows(p, s, ns[i], es[i], t)
  }

  function FieldNames(fields: seq<NamedField>): seq<string> {
    seq(|fields|, i requires 0 <= i < |fields| => fields[i].name)
  }

  lemma {:induction false} XmlIsShown(p: Platform, s: Schema, e: XNode, t: string, depth: nat)
    requires Faithful(p) && e.XElement? && ReadElement(p, s, e, t, depth).Ok?
    ensures Shows(p, s, ReadElement(p, s, e, t, depth).value, e, t)
    decreases e, 2
  {
    if IsLeafType(s, t) {
      XmlLeafHolds(p, LeafKind(s, t), Trim(TextOf(e)));
      XmlLeafMeans(p, LeafKind(s, t), Trim(TextOf(e)));
    } else {
      var decls := Flatten(s, ReadType(s, e.xsiType, t)).value;
      ChildrenAreShown(p, s, e, decls, depth + 1);
    }
  }

  lemma {:induction false} ChildrenAreShown(p: Platform, s: Schema, e: XNode, decls: seq<ElementDecl>, depth: nat)
    requires Faithful(p) && e.XElement?
    requires var cs := ReadChildren(p, s, e.children, decls, depth); BuildFields(Order(cs), cs, decls).Ok?
    ensures var cs := ReadChildren(p, s, e.children, decls, depth);
            var fields := BuildFields(Order(cs), cs, decls).value;
            FieldNames(fields) == NamesInOrder(Elements(e.children)) && FieldsShow(p, s, fields, Elements(e.children), decls)
    decreases e, 1
  {
    var es, cs := Elements(e.children), ReadChildren(p, s, e.children, decls, depth);
    ChildrenAreReadings(p, s, e.children, decls, depth);
    OrderIsNames(p, s, es, decls, depth);
    BuiltInOrder(Order(cs), cs, decls);
    var fields := BuildFields(Order(cs), cs, decls).value;
    forall i | 0 <= i < |fields|
      ensures FieldShows(p, s, fields[i].field, NamedElements(es, fields[i].name), ChildType(decls, fields[i].name), Repeats(decls, fields[i].name))
    {
      var name := fields[i].name;
      GroupedAreResults(p, s, es, decls, depth, name);
      AreChildren(e, NamedElements(es, name));
      GroupIsShown(p, s, e, NamedElements(es, name), ChildType(decls, name), Repeats(decls, name), depth);
    }
  }

  lemma AreChildren(e: XNode, es: seq<XNode>)
    requires e.XElement? && forall i :: 0 <= i < |es| ==> es[i] in Elements(e.children)
    ensures forall i :: 0 <= i < |es| ==> es[i] in e.children
  {
    forall i | 0 <= i < |es| ensures es[i] in e.children {
      var k :| 0 <= k < |Elements(e.children)| && Elements(e.children)[k] == es[i];
    }
  }

  /** Each name's field is made of its group. */
  lemma {:induction false} BuiltInOrder(names: seq<string>, cs: seq<Child>, decls: seq<ElementDecl>)
    requires BuildFields(names, cs, decls).Ok?
    ensures var fields := BuildFields(names, cs, decls).value;
            && FieldNames(fields) == names
            && forall i :: 0 <= i < |fields| ==>
                 var nodes := Collect(Grouped(cs, fields[i].name));
                 nodes.Ok? && fields[i].field == FieldFor(Repeats(decls, fields[i].name), nodes.value)
  {
    if names != [] { BuiltInOrder(names[1..], cs, decls); }
  }

  lemma GroupIsShown(p: Platform, s: Schema, e: XNode, es: seq<XNode>, t: string, repeats: bool, depth: nat)
    requires Faithful(p) && e.XElement? && forall i :: 0 <= i < |es| ==> es[i].XElement? && es[i] in e.children
    requires Collect(Results(p, s, es, t, depth)).Ok?
    ensures FieldShows(p, s, FieldFor(repeats, Collect(Results(p, s, es, t, depth)).value), es, t, repeats)
    decreases e, 0
  {
    var rs := Results(p, s, es, t, depth);
    CollectedEach(rs);
    forall i | 0 <= i < |es| ensures Shows(p, s, Collect(rs).value[i], es[i], t) {
      var k :| 0 <= k < |e.children| && e.children[k] == es[i];
      assert rs[i] == ReadElement(p, s, e.children[k], t, depth);
      XmlIsShown(p, s, e.children[k], t, depth);
    }
  }

  lemma {:induction false} CollectedEach(rs: seq<Result<Node, UciError>>)
    requires Collect(rs).Ok?
    ensures |Collect(rs).value| == |rs| && forall i :: 0 <= i < |rs| ==> rs[i] == Ok(Collect(rs).value[i])
  {
    if rs != [] {
      assert forall i :: 0 < i < |rs| ==> rs[i] == rs[1..][i - 1];
      CollectedEach(rs[1..]);
    }
  }

  // ---- What XML is refused -------------------------------------------------------------

  /** An element the reader takes: nothing too deep, and every type with content usable. */
  predicate FitsXml(s: Schema, e: XNode, t: string, depth: nat)
    requires e.XElement?
    decreases e
  {
    && depth <= MAX_DEPTH
    && (!IsLeafType(s, t) ==>
         && Flatten(s, ReadType(s, e.xsiType, t)).Ok?
         && var decls := Flatten(s, ReadType(s, e.xsiType, t)).value;
            forall i :: 0 <= i < |e.children| && e.children[i].XElement? ==>
              FitsXml(s, e.children[i], ChildType(decls, e.children[i].name), depth + 1))
  }

  lemma {:induction false} FitsXmlExactly(p: Platform, s: Schema, e: XNode, t: string, depth: nat)
    requires e.XElement?
    ensures ReadElement(p, s, e, t, depth).Ok? <==> FitsXml(s, e, t, depth)
    decreases e
  {
    if depth <= MAX_DEPTH && !IsLeafType(s, t) && Flatten(s, ReadType(s, e.xsiType, t)).Ok? {
      var decls := Flatten(s, ReadType(s, e.xsiType, t)).value;
      BuildsExactly(ReadChildren(p, s, e.children, decls, depth + 1), decls);
      forall i | 0 <= i < |e.children| ensures e.children[i] in e.children {}
      ChildrenFit(p, s, e, e.children, decls, depth + 1);
      assert FitsXml(s, e, t, depth) <==> AllOk(ReadChildren(p, s, e.children, decls, depth + 1));
    }
  }

  lemma {:induction false} ChildrenFit(p: Platform, s: Schema, e: XNode, children: seq<XNode>, decls: seq<ElementDecl>, depth: nat)
    requires e.XElement? && forall i :: 0 <= i < |children| ==> children[i] in e.children
    ensures AllOk(ReadChildren(p, s, children, decls, depth)) <==>
            forall i :: 0 <= i < |children| && children[i].XElement? ==> FitsXml(s, children[i], ChildType(decls, children[i].name), depth)
    decreases e, children
  {
    if children != [] {
      assert forall i :: 0 < i < |children| ==> children[i] == children[1..][i - 1];
      ChildrenFit(p, s, e, children[1..], decls, depth);
      if children[0].XElement? {
        var k :| 0 <= k < |e.children| && e.children[k] == children[0];
        FitsXmlExactly(p, s, e.children[k], ChildType(decls, children[0].name), depth);
        AllOkCons(Child(children[0].name, ReadElement(p, s, children[0], ChildType(decls, children[0].name), depth)),
                  ReadChildren(p, s, children[1..], decls, depth));
      }
    }
  }

  predicate AllOk(cs: seq<Child>) {
    forall i :: 0 <= i < |cs| ==> cs[i].result.Ok?
  }

  lemma AllOkCons(c: Child, cs: seq<Child>)
    ensures AllOk([c] + cs) <==> c.result.Ok? && AllOk(cs)
  {
    assert forall i :: 0 <= i < |cs| ==> ([c] + cs)[i + 1] == cs[i];
    assert ([c] + cs)[0] == c;
  }

  /** The groups are all read exactly when every child is. */
  lemma BuildsExactly(cs: seq<Child>, decls: seq<ElementDecl>)
    ensures BuildFields(Order(cs), cs, decls).Ok? <==> AllOk(cs)
  {
    var names := Order(cs);
    EachGroupBuilds(names, cs, decls);
    forall i | 0 <= i < |cs|
      ensures cs[i].name in names && cs[i].result in Grouped(cs, cs[i].name)
    {
      InItsGroup(cs, i);
    }
    forall name ensures Collect(Grouped(cs, name)).Ok? <==> forall r :: r in Grouped(cs, name) ==> r.Ok? { CollectsExactly(Grouped(cs, name)); }
    forall name, r | r in Grouped(cs, name)
      ensures exists i :: 0 <= i < |cs| && cs[i].result == r
    {
      GroupIsFrom(cs, name, r);
    }
  }

  lemma {:induction false} EachGroupBuilds(names: seq<string>, cs: seq<Child>, decls: seq<ElementDecl>)
    ensures BuildFields(names, cs, decls).Ok? <==> forall i :: 0 <= i < |names| ==> Collect(Grouped(cs, names[i])).Ok?
  {
    if names != [] {
      EachGroupBuilds(names[1..], cs, decls);
      assert forall i :: 0 < i < |names| ==> names[i] == names[1..][i - 1];
    }
  }

  lemma {:induction false} CollectsExactly(rs: seq<Result<Node, UciError>>)
    ensures Collect(rs).Ok? <==> forall r :: r in rs ==> r.Ok?
  {
    if rs != [] {
      CollectsExactly(rs[1..]);
      assert forall r :: r in rs <==> r == rs[0] || r in rs[1..];
    }
  }

  lemma {:induction false} InItsGroup(cs: seq<Child>, i: nat)
    requires i < |cs|
    ensures cs[i].name in Order(cs) && cs[i].result in Grouped(cs, cs[i].name)
  {
    if i < |cs| - 1 { InItsGroup(cs[..|cs| - 1], i); }
  }

  lemma {:induction false} GroupIsFrom(cs: seq<Child>, name: string, r: Result<Node, UciError>)
    requires r in Grouped(cs, name)
    ensures exists i :: 0 <= i < |cs| && cs[i].result == r
  {
    var k := |cs| - 1;
    if r in Grouped(cs[..k], name) {
      GroupIsFrom(cs[..k], name, r);
      var i :| 0 <= i < k && cs[..k][i].result == r;
      assert cs[i].result == r;
    } else {
      assert cs[k].result == r;
    }
  }

  // ---- How often elements occur --------------------------------------------------------

  /** All nodes under a name, whichever fields hold them. */
  function AllOccurrences(fields: seq<NamedField>, name: string): seq<Node> {
    if fields == [] then []
    else (if fields[0].name == name then Nodes(fields[0].field) else []) + AllOccurrences(fields[1..], name)
  }

  /** With distinct names, which is all that readers produce, counting misses nothing. */
  lemma {:induction false} CountIsAll(fields: seq<NamedField>, name: string)
    requires DistinctNames(fields)
    ensures Count(fields, name) == |AllOccurrences(fields, name)| && Occurrences(fields, name) == AllOccurrences(fields, name)
  {
    if fields != [] {
      assert forall i :: 0 <= i < |fields[1..]| ==> fields[1..][i] == fields[i + 1];
      CountIsAll(fields[1..], name);
      if fields[0].name == name { NoneOfName(fields[1..], name); }
    }
  }

  lemma {:induction false} NoneOfName(fields: seq<NamedField>, name: string)
    requires forall i :: 0 <= i < |fields| ==> fields[i].name != name
    ensures AllOccurrences(fields, name) == []
  {
    if fields != [] {
      assert forall i :: 0 <= i < |fields[1..]| ==> fields[1..][i] == fields[i + 1];
      NoneOfName(fields[1..], name);
    }
  }

  /** Child elements of a name in a document. */
  function ElementsNamed(cs: seq<Content>, name: string): nat {
    if cs == [] then 0
    else (if (cs[0].Element? || cs[0].Empty?) && cs[0].tag.name == name then 1 else 0) + ElementsNamed(cs[1..], name)
  }

  lemma {:induction false} ElementsNamedAppend(a: seq<Content>, b: seq<Content>, name: string)
    ensures ElementsNamed(a + b, name) == ElementsNamed(a, name) + ElementsNamed(b, name)
  {
    if a == [] {
      assert a + b == b;
    } else {
      ElementsNamedAppend(a[1..], b, name);
      assert (a + b)[1..] == a[1..] + b;
    }
  }

  lemma LineHasOne(c: Content, depth: nat, name: string)
    requires c.Element? || c.Empty?
    ensures ElementsNamed(Line(c, depth), name) == if c.tag.name == name then 1 else 0
  {
    var one: seq<Content>, end: seq<Content> := [c], [CharData("\n")];
    BetweenText(Pad(depth), one, "\n", name);
    assert Line(c, depth) == [CharData(Pad(depth))] + one + end;
    assert one[1..] == [];
  }

  /** What is written has as many child elements of a name as the node holds under it. */
  lemma {:induction false} WrittenAsOften(p: Platform, s: Schema, fields: seq<NamedField>, decls: seq<ElementDecl>, depth: nat, name: string)
    requires FieldsContent(p, s, fields, decls, depth).Ok?
    ensures ElementsNamed(FieldsContent(p, s, fields, decls, depth).value, name) == |AllOccurrences(fields, name)|
  {
    if fields != [] {
      WrittenAsOften(p, s, fields[1..], decls, depth, name);
      var f, t := fields[0], ChildType(decls, fields[0].name);
      var first := FieldContent(p, s, f.name, f.field, t, depth).value;
      ElementsNamedAppend(first, FieldsContent(p, s, fields[1..], decls, depth).value, name);
      match f.field {
        case One(n) => LineHasOne(ContentOf(p, s, f.name, n, t, false, depth).value, depth, name);
        case Many(ns) => ItemsAsOften(p, s, f.name, ns, t, depth, name);
      }
    }
  }

  lemma {:induction false} ItemsAsOften(p: Platform, s: Schema, tag: string, ns: seq<Node>, t: string, depth: nat, name: string)
    requires ItemsContent(p, s, tag, ns, t, depth).Ok?
    ensures ElementsNamed(ItemsContent(p, s, tag, ns, t, depth).value, name) == if tag == name then |ns| else 0
  {
    if ns != [] {
      ItemsAsOften(p, s, tag, ns[1..], t, depth, name);
      var c := ContentOf(p, s, tag, ns[0], t, false, depth).value;
      LineHasOne(c, depth, name);
      ElementsNamedAppend(Line(c, depth), ItemsContent(p, s, tag, ns[1..], t, depth).value, name);
    }
  }

  /** What validation counts of a node is what a document written of it holds. */
  lemma CountedAsWritten(p: Platform, s: Schema, tag: string, n: Node, t: string, isRoot: bool, depth: nat, name: string)
    requires n.Complex? && DistinctNames(n.fields) && ContentOf(p, s, tag, n, t, isRoot, depth).Ok?
    ensures var c := ContentOf(p, s, tag, n, t, isRoot, depth).value;
            Count(n.fields, name) == if c.Element? then ElementsNamed(c.content, name) else 0
  {
    CountIsAll(n.fields, name);
    if n.fields != [] {
      var decls := DeclsOf(s, ActualOf(n, t)).value;
      var cs := FieldsContent(p, s, n.fields, decls, depth + 1).value;
      WrittenAsOften(p, s, n.fields, decls, depth + 1, name);
      BetweenText("\n", cs, Pad(depth), name);
    }
  }

  lemma BetweenText(a: string, cs: seq<Content>, b: string, name: string)
    ensures ElementsNamed([CharData(a)] + cs + [CharData(b)], name) == ElementsNamed(cs, name)
  {
    ElementsNamedAppend([CharData(a)] + cs, [CharData(b)], name);
    ElementsNamedAppend([CharData(a)], cs, name);
    var x: seq<Content>, y: seq<Content> := [CharData(a)], [CharData(b)];
    assert x[1..] == [] && y[1..] == [];
  }

  /** What validation counts of a node read from XML is what its element holds. */
  lemma CountedAsRead(p: Platform, s: Schema, n: Node, e: XNode, t: string, name: string)
    requires e.XElement? && n.Complex? && Shows(p, s, n, e, t)
    ensures Count(n.fields, name) == |NamedElements(Elements(e.children), name)|
  {
    var es := Elements(e.children);
    var decls := Flatten(s, ActualOf(n, t)).value;
    NamedExactly(es, name);
    if name in NamesInOrder(es) {
      var i := FirstOfName(n.fields, name);
      assert FieldShows(p, s, n.fields[i].field, NamedElements(es, name), ChildType(decls, name), Repeats(decls, name));
    } else {
      forall i | 0 <= i < |n.fields| ensures n.fields[i].name != name { assert FieldNames(n.fields)[i] in NamesInOrder(es); }
      AbsentName(n.fields, name);
    }
  }

  lemma {:induction false} NamedExactly(es: seq<XNode>, name: string)
    requires forall i :: 0 <= i < |es| ==> es[i].XElement?
    ensures name in NamesInOrder(es) <==> NamedElements(es, name) != []
  {
    if es != [] { NamedExactly(es[..|es| - 1], name); }
  }

  lemma {:induction false} FirstOfName(fields: seq<NamedField>, name: string) returns (i: nat)
    requires name in FieldNames(fields)
    ensures i < |fields| && fields[i].name == name && Occurrences(fields, name) == Nodes(fields[i].field)
  {
    if fields[0].name == name {
      i := 0;
    } else {
      var k :| 0 <= k < |fields| && FieldNames(fields)[k] == name;
      assert FieldNames(fields[1..])[k - 1] == name;
      i := FirstOfName(fields[1..], name);
      i := i + 1;
    }
  }

  lemma {:induction false} AbsentName(fields: seq<NamedField>, name: string)
    requires forall i :: 0 <= i < |fields| ==> fields[i].name != name
    ensures Occurrences(fields, name) == []
  {
    if fields != [] {
      assert forall i :: 0 <= i < |fields[1..]| ==> fields[1..][i] == fields[i + 1];
      AbsentName(fields[1..], name);
    }
  }

  /** The whole of `from_xml`: a document within the depth the scanner allows, well formed, whose
      root is a global element and whose content fits; and then the message says what it says. */
  lemma XmlMessage(p: Platform, s: Schema, d: Document)
    requires Faithful(p)
    ensures var root := View(d.root);
            FromXml(p, s, d).Ok? <==>
              && !Exceeds(RenderDocument(d), 0, MAX_DEPTH) && WellFormed(d)
              && GlobalType(s, root.name).Some? && FitsXml(s, root, RootType(s, root), 0)
    ensures FromXml(p, s, d).Ok? ==>
              var m, root := FromXml(p, s, d).value, View(d.root);
              m.name == root.name && Shows(p, s, m.body, root, RootType(s, root))
  {
    var root := View(d.root);
    if WellFormed(d) && GlobalType(s, root.name).Some? {
      FitsXmlExactly(p, s, root, RootType(s, root), 0);
      if FromXml(p, s, d).Ok? { XmlIsShown(p, s, root, RootType(s, root), 0); }
    }
  }

  /** The type a root is read as: the one it names, or the one its element is declared with. */
  function RootType(s: Schema, root: XNode): string
    requires root.XElement? && GlobalType(s, root.name).Some?
  {
    if root.xsiType.Some? then LocalName(root.xsiType.value) else GlobalType(s, root.name).value
  }

  // ---- Carried as they are -------------------------------------------------------------

  /** A member nothing declares is carried as the text it is. */
  lemma UndeclaredIsCarried(p: Platform, s: Schema, decls: seq<ElementDecl>, name: string, text: string, depth: nat)
    requires FindDecl(decls, name).None? && depth <= MAX_DEPTH
    ensures ReadField(p, s, JString(text), ChildType(decls, name), Repeats(decls, name), depth) == Ok(One(Leaf(Str(text))))
  {
    StringIsText(s);
  }

  /** And so is an element. */
  lemma UndeclaredElement(p: Platform, s: Schema, decls: seq<ElementDecl>, name: string, text: string, xsi: Option<string>, depth: nat)
    requires FindDecl(decls, name).None? && depth <= MAX_DEPTH
    ensures ReadElement(p, s, XElement(name, xsi, [XText(text)]), ChildType(decls, name), depth) == Ok(Leaf(Str(Trim(text))))
  {
    StringIsText(s);
    assert TextOf(XElement(name, xsi, [XText(text)])) == text;
  }

  lemma StringIsText(s: Schema)
    ensures IsLeafType(s, "xs:string") && Primitively(s, "xs:string") == "xs:string" && KindOf("xs:string").AnyText?
    ensures "xs:string" !in NUMERIC
  {
  }

  /** A type that is neither built in nor defined is read as text as well. */
  lemma UnknownIsText(p: Platform, s: Schema, t: string, text: string, depth: nat)
    requires !IsPrimitiveName(t) && t !in s.simpleTypes && t !in s.complexTypes && depth <= MAX_DEPTH
    ensures ReadNode(p, s, JString(text), t, depth) == Ok(Leaf(Str(text)))
  {
    assert Primitively(s, t) == t;
    NotBuiltIn(t);
  }

  lemma NotBuiltIn(t: string)
    requires !IsPrimitiveName(t)
    ensures t != "xs:boolean" && t !in NUMERIC
  {
    forall i | 0 <= i < |NUMERIC| ensures IsPrimitiveName(NUMERIC[i]) {}
  }

  /** Of a leaf's text only what stands before the first comment or instruction is read. */
  lemma CommentCutsText(p: Platform, s: Schema, name: string, xsi: Option<string>, a: string, more: seq<XNode>, t: string, depth: nat)
    requires IsLeafType(s, t)
    ensures ReadElement(p, s, XElement(name, xsi, [XText(a), XOther] + more), t, depth) ==
            ReadElement(p, s, XElement(name, xsi, [XText(a)]), t, depth)
  {
    var e, f := XElement(name, xsi, [XText(a), XOther] + more), XElement(name, xsi, [XText(a)]);
    assert TextOf(e) == a && TextOf(f) == a;
  }

  /** `xsi:type` counts when it names a complex type, whatever its prefix, and not otherwise. */
  lemma NamedTypeCounts(s: Schema, prefix: string, local: string, t: string)
    requires ':' !in local
    ensures ReadType(s, Some(prefix + ":" + local), t) == (if local in s.complexTypes then local else t)
    ensures ReadType(s, Some(local), t) == (if local in s.complexTypes then local else t)
    ensures ReadType(s, None, t) == t
  {
    LocalPart(prefix, local);
  }

  lemma {:induction false} LocalPart(prefix: string, local: string)
    requires ':' !in local
    ensures LocalName(prefix + ":" + local) == local
  {
    var q := prefix + ":" + local;
    if prefix == [] {
      assert q[0] == ':' && q[1..] == local;
    } else {
      assert q[|prefix|] == ':' && q[1..] == prefix[1..] + ":" + local;
      LocalPart(prefix[1..], local);
    }
  }

  // ---- What JSON can be written --------------------------------------------------------

  /** A shaped tree can be written as JSON exactly when it is not too tall, as it can as XML. */
  lemma {:induction false} JsonByHeight(s: Schema, n: Node, t: string, depth: nat)
    requires Shaped(s, n, t)
    ensures var r := WriteNode(s, n, t, depth);
            (r.Ok? <==> depth + NodeHeight(n) <= MAX_DEPTH + 1) && (r.Err? ==> r.error == TooDeep)
    decreases n, 1
  {
    if n.Complex? && depth <= MAX_DEPTH {
      JsonFieldsByHeight(s, n.fields, Flatten(s, ActualOf(n, t)).value, depth + 1);
    }
  }

  lemma {:induction false} JsonFieldsByHeight(s: Schema, fields: seq<NamedField>, decls: seq<ElementDecl>, depth: nat)
    requires forall i :: 0 <= i < |fields| ==>
      ShapedField(s, fields[i].field, ChildType(decls, fields[i].name), Repeats(decls, fields[i].name))
    requires depth <= MAX_DEPTH + 1
    ensures var r := WriteFields(s, fields, decls, depth);
            (r.Ok? <==> depth + FieldsHeight(fields) <= MAX_DEPTH + 1) && (r.Err? ==> r.error == TooDeep)
    decreases fields
  {
    if fields != [] {
      assert forall i :: 0 <= i < |fields[1..]| ==> fields[1..][i] == fields[i + 1];
      JsonFieldsByHeight(s, fields[1..], decls, depth);
      var t := ChildType(decls, fields[0].name);
      assert ShapedField(s, fields[0].field, t, Repeats(decls, fields[0].name));
      match fields[0].field
      case One(n) => JsonByHeight(s, n, t, depth);
      case Many(ns) => JsonItemsByHeight(s, ns, t, depth);
    }
  }

  lemma {:induction false} JsonItemsByHeight(s: Schema, ns: seq<Node>, t: string, depth: nat)
    requires (forall i :: 0 <= i < |ns| ==> Shaped(s, ns[i], t)) && depth <= MAX_DEPTH + 1
    ensures var r := WriteItems(s, ns, t, depth);
            (r.Ok? <==> depth + ItemsHeight(ns) <= MAX_DEPTH + 1) && (r.Err? ==> r.error == TooDeep)
    decreases ns
  {
    if ns != [] {
      assert forall i :: 0 <= i < |ns[1..]| ==> ns[1..][i] == ns[i + 1];
      JsonByHeight(s, ns[0], t, depth);
      JsonItemsByHeight(s, ns[1..], t, depth);
    }
  }
}
