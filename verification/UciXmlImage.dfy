/** What the XML reader can produce, and exactly when another trip through XML leaves it alone. */
module UciXmlImage {
  import opened Wrappers
  import opened UciText
  import opened Primitive
  import opened UciSchema
  import opened UciInstance
  import opened XmlScan
  import opened XmlText
  import opened UciXml
  import opened UciShape
  import opened UciSpelling
  import opened UciXmlTrip
  import Decimal

  /** Names and characters a parser can report. */
  predicate SafeTree(e: XNode) {
    match e
    case XText(text) => XmlChars(text)
    case XOther => true
    case XElement(name, _, children) => SafeName(name) && forall i :: 0 <= i < |children| ==> SafeTree(children[i])
  }

  lemma {:induction false} LocalNameOfPrefixed(q: string, i: nat)
    requires i < |q| && q[i] == ':' && ':' !in q[i + 1..]
    ensures LocalName(q) == q[i + 1..]
  {
    assert q[i] in q;
    if i > 0 {
      assert q[1..][i - 1 + 1..] == q[i + 1..];
      LocalNameOfPrefixed(q[1..], i - 1);
    } else {
      assert LocalName(q[1..]) == q[1..];
    }
  }

  lemma LocalNameOfQName(q: string)
    requires IsQName(q)
    ensures SafeName(LocalName(q))
  {
    if IsNcName(q) {
      NcNameIsTame(q);
    } else {
      var i :| 0 <= i < |q| && q[i] == ':' && IsNcName(q[..i]) && IsNcName(q[i + 1..]);
      NcNameIsTame(q[i + 1..]);
      LocalNameOfPrefixed(q, i);
    }
  }

  /** A well-formed document is seen as such a tree. */
  lemma {:induction false} ViewIsSafe(c: Content)
    requires Proper(c)
    ensures SafeTree(View(c))
    decreases c, 0
  {
    match c
    case CharData(text) =>
      EolHasNoReturn(text);
      ResolveKeepsChars(Eol(text));
    case CData(text) => EolHasNoReturn(text);
    case Empty(tag) => LocalNameOfQName(tag.name);
    case Element(tag, content, _) =>
      LocalNameOfQName(tag.name);
      ViewsAreSafe(content);
    case _ =>
  }

  lemma {:induction false} ViewsAreSafe(cs: seq<Content>)
    requires forall i :: 0 <= i < |cs| ==> Proper(cs[i])
    ensures forall i :: 0 <= i < |ViewAll(cs)| ==> SafeTree(ViewAll(cs)[i])
    decreases cs
  {
    if cs != [] {
      assert forall i :: 0 <= i < |cs[1..]| ==> cs[1..][i] == cs[i + 1];
      ViewIsSafe(cs[0]);
      ViewsAreSafe(cs[1..]);
      var v, rest := View(cs[0]), ViewAll(cs[1..]);
      if v.XText? { JoinedIsSafe(v.text, rest); }
    }
  }

  lemma JoinedIsSafe(text: string, rest: seq<XNode>)
    requires XmlChars(text) && forall i :: 0 <= i < |rest| ==> SafeTree(rest[i])
    ensures forall i :: 0 <= i < |Joined(text, rest)| ==> SafeTree(Joined(text, rest)[i])
  {
    if rest != [] && rest[0].XText? {
      assert SafeTree(rest[0]);
      CharsSplit(text, rest[0].text);
    }
  }

  /** Complex types are named as XML Schema allows. */
  predicate SafeTypes(s: Schema) {
    forall t :: t in s.complexTypes ==> SafeName(t)
  }

  function Levels(e: XNode): nat
    decreases e, 1
  {
    if e.XElement? then 1 + MaxLevels(e.children) else 0
  }

  function MaxLevels(es: seq<XNode>): nat
    decreases es
  {
    if es == [] then 0 else Larger(Levels(es[0]), MaxLevels(es[1..]))
  }

  /** The parser sees as many levels as are spelled. */
  lemma {:induction false} LevelsOfView(c: Content)
    ensures Levels(View(c)) == Height(c)
    decreases c, 0
  {
    if c.Element? { LevelsOfViews(c.content); }
  }

  lemma {:induction false} LevelsOfViews(cs: seq<Content>)
    ensures MaxLevels(ViewAll(cs)) == MaxHeight(cs)
    decreases cs
  {
    if cs != [] {
      LevelsOfView(cs[0]);
      LevelsOfViews(cs[1..]);
      var v, rest := View(cs[0]), ViewAll(cs[1..]);
      if v.XText? {
        var j := Joined(v.text, rest);
        if rest != [] && rest[0].XText? {
          assert j[1..] == rest[1..];
        } else if v.text != [] {
          assert j[1..] == rest;
        }
      } else {
        assert ([v] + rest)[1..] == rest;
      }
    }
  }

  // ---- Leaves --------------------------------------------------------------------------

  lemma NumbersReadBack(p: Platform, kind: Kind, n: int)
    requires kind.Integer? && -Decimal.I64_LIMIT <= n < Decimal.U64_LIMIT
    ensures ParseText(p, kind, Show(n)) == Num(Int(n))
  {
    CodesOfShow(n);
    if n < Decimal.I64_LIMIT {
      Decimal.ParseSignedOfPrint(n);
    } else {
      Decimal.ParseSignedPastRange(n);
      Decimal.ParseOfPrint(n);
    }
  }

  /** Text that has been read once reads the same again, and holds what the text held. */
  lemma LeafStable(p: Platform, kind: Kind, text: string)
    requires Faithful(p)
    ensures var leaf := ParseText(p, kind, Trim(text));
            && ParseText(p, kind, Trim(AsText(p, leaf))) == leaf
            && (XmlChars(text) ==> XmlChars(AsText(p, leaf)))
            && (!leaf.Str? ==> '\r' !in AsText(p, leaf))
  {
    var leaf := ParseText(p, kind, Trim(text));
    TrimMeaning(text);
    TrimKeepsChars(text);
    if leaf.Str? {
      TrimMeaning(leaf.s);
    } else {
      ValueStable(p, kind, Trim(text));
    }
  }

  /** A value that was read prints as text that reads as the same value. */
  lemma ValueStable(p: Platform, kind: Kind, text: string)
    requires Faithful(p) && !ParseText(p, kind, text).Str?
    ensures var leaf := ParseText(p, kind, text);
            Visible(AsText(p, leaf)) && Trim(AsText(p, leaf)) == AsText(p, leaf) && ParseText(p, kind, AsText(p, leaf)) == leaf
    ensures XmlChars(AsText(p, ParseText(p, kind, text))) && '\r' !in AsText(p, ParseText(p, kind, text))
  {
    var leaf := ParseText(p, kind, text);
    if leaf.Num? && leaf.number.Int? {
      ShowIsVisible(leaf.number.n);
      NumbersReadBack(p, kind, leaf.number.n);
    } else if leaf.Num? {
      assert Finite(leaf.number.f);
      assert p.parseFloat(p.printFloat(leaf.number.f)) == Some(leaf.number.f);
    }
    VisibleIsTame(AsText(p, leaf));
    TrimMeaning(AsText(p, leaf));
  }

  /** Only a carriage return is lost. */
  predicate KeepsLineEnds(leaf: Simple) {
    leaf.Str? ==> '\r' !in leaf.s
  }

  lemma LeafCarried(p: Platform, s: Schema, leaf: Simple, t: string)
    requires Faithful(p) && ParseText(p, LeafKind(s, t), Trim(AsText(p, leaf))) == leaf
    requires !leaf.Str? ==> '\r' !in AsText(p, leaf)
    ensures Carried(p, s, leaf, t) == leaf <==> KeepsLineEnds(leaf)
  {
    var text := AsText(p, leaf);
    EolFixed(text);
    if leaf.Str? && '\r' in text {
      EolHasNoReturn(text);
      TrimKeepsChars(Eol(text));
      var again := ParseText(p, LeafKind(s, t), Trim(Eol(text)));
      assert again.Str? ==> '\r' !in again.s;
    }
  }

  /** No leaf of the tree has a carriage return in its text. */
  predicate NoReturns(n: Node)
    decreases n
  {
    match n
    case Leaf(x) => KeepsLineEnds(x)
    case Complex(_, fields) => forall i :: 0 <= i < |fields| ==> NoReturnsField(fields[i].field)
  }

  predicate NoReturnsField(f: Field)
    decreases f
  {
    match f
    case One(n) => NoReturns(n)
    case Many(ns) => forall i :: 0 <= i < |ns| ==> NoReturns(ns[i])
  }

  // ---- Trees ---------------------------------------------------------------------------

  /** Shaped, spellable, no taller than `h`, and unchanged by XML but for carriage returns. */
  predicate Good(p: Platform, s: Schema, n: Node, t: string, h: nat) {
    && Shaped(s, n, t) && SafeNode(n) && Spellable(p, n) && NodeHeight(n) <= h
    && (Normal(p, s, n, t) == n <==> NoReturns(n))
  }

  predicate GoodChild(p: Platform, s: Schema, c: Child, decls: seq<ElementDecl>, h: nat) {
    SafeName(c.name) && (c.result.Ok? ==> Good(p, s, c.result.value, ChildType(decls, c.name), h))
  }

  predicate GoodChildren(p: Platform, s: Schema, cs: seq<Child>, decls: seq<ElementDecl>, h: nat) {
    forall i :: 0 <= i < |cs| ==> GoodChild(p, s, cs[i], decls, h)
  }

  predicate GoodField(p: Platform, s: Schema, f: NamedField, decls: seq<ElementDecl>, h: nat) {
    var t := ChildType(decls, f.name);
    && SafeName(f.name)
    && Fits(f.field, Repeats(decls, f.name)) && Nodes(f.field) != []
    && forall i :: 0 <= i < |Nodes(f.field)| ==> Good(p, s, Nodes(f.field)[i], t, h)
  }

  lemma {:induction false} OrderNames(cs: seq<Child>)
    ensures forall i, j :: 0 <= i < j < |Order(cs)| ==> Order(cs)[i] != Order(cs)[j]
    ensures forall i :: 0 <= i < |Order(cs)| ==>
              Grouped(cs, Order(cs)[i]) != [] && exists k :: 0 <= k < |cs| && cs[k].name == Order(cs)[i]
  {
    if cs != [] {
      var before := cs[..|cs| - 1];
      OrderNames(before);
      forall i | 0 <= i < |Order(cs)|
        ensures Grouped(cs, Order(cs)[i]) != [] && exists k :: 0 <= k < |cs| && cs[k].name == Order(cs)[i]
      {
        if i < |Order(before)| {
          assert Order(cs)[i] == Order(before)[i];
          var k :| 0 <= k < |before| && before[k].name == Order(before)[i];
          assert cs[k].name == Order(cs)[i];
        } else {
          assert cs[|cs| - 1].name == Order(cs)[i];
        }
      }
    }
  }

  lemma {:induction false} GroupedFrom(cs: seq<Child>, name: string, i: nat)
    requires i < |Grouped(cs, name)|
    ensures exists k :: 0 <= k < |cs| && cs[k].name == name && cs[k].result == Grouped(cs, name)[i]
  {
    var before := cs[..|cs| - 1];
    if i < |Grouped(before, name)| {
      GroupedFrom(before, name, i);
      var k :| 0 <= k < |before| && before[k].name == name && before[k].result == Grouped(before, name)[i];
      assert cs[k] == before[k];
    } else {
      assert cs[|cs| - 1].name == name;
    }
  }

  lemma {:induction false} CollectFrom(rs: seq<Result<Node, UciError>>)
    requires Collect(rs).Ok?
    ensures |Collect(rs).value| == |rs| && forall i :: 0 <= i < |rs| ==> rs[i] == Ok(Collect(rs).value[i])
  {
    if rs != [] { CollectFrom(rs[1..]); }
  }

  lemma BuiltField(p: Platform, s: Schema, cs: seq<Child>, name: string, decls: seq<ElementDecl>, h: nat)
    requires GoodChildren(p, s, cs, decls, h)
    requires Grouped(cs, name) != [] && Collect(Grouped(cs, name)).Ok?
    ensures GoodField(p, s, NamedField(name, FieldFor(Repeats(decls, name), Collect(Grouped(cs, name)).value)), decls, h)
  {
    var rs := Grouped(cs, name);
    CollectFrom(rs);
    var ns := Collect(rs).value;
    forall i | 0 <= i < |ns|
      ensures Good(p, s, ns[i], ChildType(decls, name), h) && SafeName(name)
    {
      GroupedFrom(cs, name, i);
      var k :| 0 <= k < |cs| && cs[k].name == name && cs[k].result == rs[i];
      assert GoodChild(p, s, cs[k], decls, h);
    }
    assert Good(p, s, ns[0], ChildType(decls, name), h);
  }

  lemma {:induction false} BuiltFields(p: Platform, s: Schema, names: seq<string>, cs: seq<Child>, decls: seq<ElementDecl>, h: nat)
    requires GoodChildren(p, s, cs, decls, h)
    requires forall i :: 0 <= i < |names| ==> Grouped(cs, names[i]) != []
    requires BuildFields(names, cs, decls).Ok?
    ensures var fs := BuildFields(names, cs, decls).value;
            |fs| == |names| && forall i :: 0 <= i < |fs| ==> fs[i].name == names[i] && GoodField(p, s, fs[i], decls, h)
    decreases |names|
  {
    if names != [] {
      assert forall i :: 0 <= i < |names[1..]| ==> names[1..][i] == names[i + 1];
      BuiltFields(p, s, names[1..], cs, decls, h);
      assert Grouped(cs, names[0]) != [];
      BuiltField(p, s, cs, names[0], decls, h);
    }
  }

  lemma {:induction false} GoodItems(p: Platform, s: Schema, ns: seq<Node>, t: string, h: nat)
    requires forall i :: 0 <= i < |ns| ==> Good(p, s, ns[i], t, h)
    ensures ItemsHeight(ns) <= h && (NormalItems(p, s, ns, t) == ns <==> AllKept(ns))
  {
    if ns != [] {
      assert Good(p, s, ns[0], t, h);
      assert forall i :: 0 <= i < |ns[1..]| ==> ns[1..][i] == ns[i + 1];
      GoodItems(p, s, ns[1..], t, h);
      SameCons(Normal(p, s, ns[0], t), NormalItems(p, s, ns[1..], t), ns);
      AllKeptCons(ns);
    }
  }

  lemma AllKeptCons(ns: seq<Node>)
    requires ns != []
    ensures AllKept(ns) <==> NoReturns(ns[0]) && AllKept(ns[1..])
  {
    assert forall i :: 0 < i < |ns| ==> ns[i] == ns[1..][i - 1];
  }

  predicate AllKept(ns: seq<Node>) {
    forall i :: 0 <= i < |ns| ==> NoReturns(ns[i])
  }

  predicate FieldsKept(fs: seq<NamedField>) {
    forall i :: 0 <= i < |fs| ==> NoReturnsField(fs[i].field)
  }

  lemma SameCons<T>(first: T, rest: seq<T>, all: seq<T>)
    requires all != []
    ensures [first] + rest == all <==> first == all[0] && rest == all[1..]
  {
    if [first] + rest == all { assert ([first] + rest)[1..] == rest; }
    if first == all[0] && rest == all[1..] { assert all == [all[0]] + all[1..]; }
  }

  lemma GoodFieldFacts(p: Platform, s: Schema, f: NamedField, decls: seq<ElementDecl>, h: nat)
    requires GoodField(p, s, f, decls, h)
    ensures var t := ChildType(decls, f.name);
            && f.field != Many([]) && FieldHeight(f.field) <= h
            && (NormalField(p, s, f.field, t) == f.field <==> NoReturnsField(f.field))
            && SafeField(f.field) && SpellableField(p, f.field) && ShapedField(s, f.field, t, Repeats(decls, f.name))
  {
    var t := ChildType(decls, f.name);
    match f.field
    case One(n) => assert Good(p, s, Nodes(f.field)[0], t, h);
    case Many(ns) => GoodMany(p, s, ns, t, h);
  }

  lemma GoodMany(p: Platform, s: Schema, ns: seq<Node>, t: string, h: nat)
    requires forall i :: 0 <= i < |ns| ==> Good(p, s, ns[i], t, h)
    ensures FieldHeight(Many(ns)) <= h && (NormalField(p, s, Many(ns), t) == Many(ns) <==> NoReturnsField(Many(ns)))
    ensures SafeField(Many(ns)) && SpellableField(p, Many(ns)) && forall i :: 0 <= i < |ns| ==> Shaped(s, ns[i], t)
  {
    GoodItems(p, s, ns, t, h);
    assert NoReturnsField(Many(ns)) <==> AllKept(ns);
  }

  lemma {:induction false} GoodFields(p: Platform, s: Schema, fs: seq<NamedField>, decls: seq<ElementDecl>, h: nat)
    requires forall i :: 0 <= i < |fs| ==> GoodField(p, s, fs[i], decls, h)
    ensures FieldsHeight(fs) <= h && (NormalFields(p, s, fs, decls) == fs <==> FieldsKept(fs))
  {
    if fs != [] {
      var rest := fs[1..];
      assert GoodField(p, s, fs[0], decls, h);
      GoodFieldFacts(p, s, fs[0], decls, h);
      assert forall i :: 0 <= i < |rest| ==> rest[i] == fs[i + 1];
      GoodFields(p, s, rest, decls, h);
      var first := NamedField(fs[0].name, NormalField(p, s, fs[0].field, ChildType(decls, fs[0].name)));
      SameCons(first, NormalFields(p, s, rest, decls), fs);
      KeptCons(fs);
    }
  }

  lemma KeptCons(fs: seq<NamedField>)
    requires fs != []
    ensures FieldsKept(fs) <==> NoReturnsField(fs[0].field) && FieldsKept(fs[1..])
  {
    assert forall i :: 0 < i < |fs| ==> fs[i] == fs[1..][i - 1];
  }

  lemma GoodFieldsAre(p: Platform, s: Schema, fs: seq<NamedField>, decls: seq<ElementDecl>, h: nat)
    requires forall i :: 0 <= i < |fs| ==> GoodField(p, s, fs[i], decls, h)
    ensures forall i :: 0 <= i < |fs| ==>
              && SafeName(fs[i].name) && SafeField(fs[i].field) && SpellableField(p, fs[i].field)
              && ShapedField(s, fs[i].field, ChildType(decls, fs[i].name), Repeats(decls, fs[i].name))
  {
    forall i | 0 <= i < |fs|
      ensures && SafeName(fs[i].name) && SafeField(fs[i].field) && SpellableField(p, fs[i].field)
              && ShapedField(s, fs[i].field, ChildType(decls, fs[i].name), Repeats(decls, fs[i].name))
    {
      GoodFieldFacts(p, s, fs[i], decls, h);
    }
  }

  /** What the XML reader returns is shaped, and XML keeps all of it but carriage returns. */
  lemma {:induction false} ReadIsGood(p: Platform, s: Schema, e: XNode, t: string, depth: nat)
    requires Faithful(p) && SafeTypes(s) && e.XElement? && SafeTree(e)
    requires ReadElement(p, s, e, t, depth).Ok?
    ensures Good(p, s, ReadElement(p, s, e, t, depth).value, t, Levels(e))
    decreases e, 1
  {
    if IsLeafType(s, t) {
      LeafIsGood(p, s, e, t, depth);
    } else {
      var actual := ReadType(s, e.xsiType, t);
      var decls := Flatten(s, actual).value;
      var cs := ReadChildren(p, s, e.children, decls, depth + 1);
      ChildrenAreGood(p, s, e.children, decls, depth + 1);
      OrderNames(cs);
      BuiltFields(p, s, Order(cs), cs, decls, MaxLevels(e.children));
      var fs := BuildFields(Order(cs), cs, decls).value;
      GoodFields(p, s, fs, decls, MaxLevels(e.children));
      GoodFieldsAre(p, s, fs, decls, MaxLevels(e.children));
      GoodComplex(p, s, fs, actual, t, decls, MaxLevels(e.children));
    }
  }

  lemma LeafIsGood(p: Platform, s: Schema, e: XNode, t: string, depth: nat)
    requires Faithful(p) && e.XElement? && SafeTree(e) && IsLeafType(s, t) && ReadElement(p, s, e, t, depth).Ok?
    ensures Good(p, s, ReadElement(p, s, e, t, depth).value, t, Levels(e))
  {
    LeafStable(p, LeafKind(s, t), TextOf(e));
    assert XmlChars(TextOf(e));
    LeafCarried(p, s, ParseText(p, LeafKind(s, t), Trim(TextOf(e))), t);
  }

  lemma GoodComplex(p: Platform, s: Schema, fs: seq<NamedField>, actual: string, t: string, decls: seq<ElementDecl>, h: nat)
    requires SafeTypes(s) && !IsLeafType(s, t) && IsComplex(s, actual) && Flatten(s, actual) == Ok(decls)
    requires DistinctNames(fs) && FieldsHeight(fs) <= h && (NormalFields(p, s, fs, decls) == fs <==> FieldsKept(fs))
    requires forall i :: 0 <= i < |fs| ==>
              && SafeName(fs[i].name) && SafeField(fs[i].field) && SpellableField(p, fs[i].field)
              && ShapedField(s, fs[i].field, ChildType(decls, fs[i].name), Repeats(decls, fs[i].name))
    ensures Good(p, s, Complex(Override(actual, t), fs), t, 1 + h)
  {
    var n := Complex(Override(actual, t), fs);
    assert ActualOf(n, t) == actual;
  }

  lemma {:induction false} ChildrenAreGood(p: Platform, s: Schema, es: seq<XNode>, decls: seq<ElementDecl>, depth: nat)
    requires Faithful(p) && SafeTypes(s) && forall i :: 0 <= i < |es| ==> SafeTree(es[i])
    ensures GoodChildren(p, s, ReadChildren(p, s, es, decls, depth), decls, MaxLevels(es))
    decreases es
  {
    if es != [] {
      assert forall i :: 0 <= i < |es[1..]| ==> es[1..][i] == es[i + 1];
      ChildrenAreGood(p, s, es[1..], decls, depth);
      var rest := ReadChildren(p, s, es[1..], decls, depth);
      GoodChildrenRise(p, s, rest, decls, MaxLevels(es[1..]), MaxLevels(es));
      if es[0].XElement? {
        assert SafeTree(es[0]);
        var t := ChildType(decls, es[0].name);
        if ReadElement(p, s, es[0], t, depth).Ok? { ReadIsGood(p, s, es[0], t, depth); }
      }
    }
  }

  lemma GoodChildrenRise(p: Platform, s: Schema, cs: seq<Child>, decls: seq<ElementDecl>, h: nat, k: nat)
    requires GoodChildren(p, s, cs, decls, h) && h <= k
    ensures GoodChildren(p, s, cs, decls, k)
  {
    forall i | 0 <= i < |cs|
      ensures GoodChild(p, s, cs[i], decls, k)
    {
      assert GoodChild(p, s, cs[i], decls, h);
    }
  }

  /** A message read from an XML document without a root `xsi:type` is always written and
      read again, and is the same message (grouping, nested overrides and leaf types
      included) exactly when no leaf text has a carriage return, which only a character
      reference can have put there. */
  lemma XmlRoundTrip(p: Platform, s: Schema, d: Document)
    requires Faithful(p) && SafeTypes(s)
    requires View(d.root).XElement? && View(d.root).xsiType.None?
    requires FromXml(p, s, d).Ok?
    ensures var m := FromXml(p, s, d).value;
            && ToXml(p, s, m).Ok?
            && FromXml(p, s, ToXml(p, s, m).value).Ok?
            && (FromXml(p, s, ToXml(p, s, m).value) == Ok(m) <==> NoReturns(m.body))
  {
    var root, m := View(d.root), FromXml(p, s, d).value;
    ScanIsExact(d, MAX_DEPTH);
    LevelsOfView(d.root);
    ViewIsSafe(d.root);
    ReadIsGood(p, s, root, s.globalElements[root.name], 0);
    RootKeepsType(p, s, root, s.globalElements[root.name]);
    XmlTrip(p, s, m);
  }

  /** Without `xsi:type` an element is read as what it is declared. */
  lemma RootKeepsType(p: Platform, s: Schema, e: XNode, t: string)
    requires e.XElement? && e.xsiType.None? && ReadElement(p, s, e, t, 0).Ok?
    ensures ReadElement(p, s, e, t, 0).value.Complex? ==> ReadElement(p, s, e, t, 0).value.typeName.None?
  {
  }

  // ---- A document that does not come back ----------------------------------------------

  /** `A` is a string, and nothing else is declared. */
  const STRINGS: Schema := Schema(map["A" := "xs:string"], map[], map[])

  /** `<name>text</name>` */
  function OneLeaf(name: string, text: string): Document {
    Document([], Element(Tag(name, [], ""), [CharData(text)], ""), [])
  }

  lemma ReferenceToReturn()
    ensures Reference("&#13;b") == Some(Ref(5, '\r'))
  {
    var text := "&#13;b";
    var digits := text[2..];
    assert digits == "13;b" && digits[1..] == "3;b" && digits[1..][1..] == ";b";
    assert Leading(";b", 10, 13) == (0, 13);
    assert Leading("3;b", 10, 1) == (1, 13);
    assert Leading(digits, 10, 0) == (2, 13);
  }

  lemma ReturnIsResolved()
    ensures Eol("a&#13;b") == "a&#13;b" && RefsOk("a&#13;b") && Resolve("a&#13;b") == "a\rb"
  {
    var text := "a&#13;b";
    EolFixed(text);
    ReferenceToReturn();
    assert text[1..] == "&#13;b" && "&#13;b"[5..] == "b" && "b"[1..] == "";
    assert Resolve("b") == "b" && RefsOk("b");
    assert Resolve("&#13;b") == ['\r'] + "b" && RefsOk("&#13;b");
  }

  lemma OneLeafIsWellFormed(name: string, text: string)
    requires SafeName(name) && XmlChars(text) && RefsOk(text) && '<' !in text && '>' !in text
    ensures WellFormed(OneLeaf(name, text)) && !Exceeds(RenderDocument(OneLeaf(name, text)), 0, MAX_DEPTH)
  {
    var d, cs := OneLeaf(name, text), [CharData(text)];
    SafeIsName(name);
    NoBracketEnd(text);
    assert Proper(cs[0]) && Sound(cs[0]);
    assert SoundAll(cs) && ProperAll(cs);
    NcNameIsTame(name);
    assert Bound(cs[0], RESERVED + Binds(d.root.tag)) && Bound(d.root, RESERVED);
    FlatHeight(cs);
    ScanIsExact(d, MAX_DEPTH);
  }

  lemma OneLeafIsSeen(name: string, text: string)
    requires SafeName(name) && Resolve(Eol(text)) != []
    ensures View(OneLeaf(name, text).root) == XElement(name, None, [XText(Resolve(Eol(text)))])
  {
    var cs := [CharData(text)];
    assert cs[1..] == [];
    assert ViewAll(cs) == Joined(Resolve(Eol(text)), []);
    NcNameIsTame(name);
  }

  lemma ReturnTextIsLegal()
    ensures XmlChars("a&#13;b") && '<' !in "a&#13;b" && '>' !in "a&#13;b" && SafeName("A")
  {
  }

  lemma StringsAreText()
    ensures SafeTypes(STRINGS) && GlobalType(STRINGS, "A") == Some("xs:string")
    ensures IsLeafType(STRINGS, "xs:string") && LeafKind(STRINGS, "xs:string").AnyText?
  {
    assert IsPrimitiveName("xs:string");
  }

  lemma ReturnIsInside()
    ensures "a\rb" != [] && Trim("a\rb") == "a\rb" && '\r' in "a\rb"
  {
    TrimMeaning("a\rb");
    assert "a\rb"[1] == '\r';
  }

  /** It is accepted, its one leaf holds a carriage return, and writing it and reading it back
      gives another message. */
  lemma ReturnDocumentChanges(p: Platform) returns (d: Document, m: Message)
    requires Faithful(p)
    ensures d == OneLeaf("A", "a&#13;b") && m == Message("A", Leaf(Str("a\rb")))
    ensures FromXml(p, STRINGS, d) == Ok(m) && ToXml(p, STRINGS, m).Ok? && FromXml(p, STRINGS, ToXml(p, STRINGS, m).value) != Ok(m)
  {
    ReturnTextIsLegal();
    ReturnIsResolved();
    StringsAreText();
    ReturnIsInside();
    d, m := LeafDocumentChanges(p, STRINGS, "A", "xs:string", "a&#13;b", "a\rb");
  }

  lemma LeafDocumentChanges(p: Platform, s: Schema, name: string, t: string, raw: string, text: string) returns (d: Document, m: Message)
    requires Faithful(p) && SafeTypes(s) && GlobalType(s, name) == Some(t) && IsLeafType(s, t) && LeafKind(s, t).AnyText?
    requires SafeName(name) && XmlChars(raw) && RefsOk(raw) && '<' !in raw && '>' !in raw
    requires Resolve(Eol(raw)) == text && text != [] && Trim(text) == text && '\r' in text
    ensures d == OneLeaf(name, raw) && m == Message(name, Leaf(Str(text)))
    ensures FromXml(p, s, d) == Ok(m) && ToXml(p, s, m).Ok? && FromXml(p, s, ToXml(p, s, m).value) != Ok(m)
  {
    d, m := OneLeaf(name, raw), Message(name, Leaf(Str(text)));
    OneLeafIsWellFormed(name, raw);
    OneLeafIsSeen(name, raw);
    LeafIsRead(p, s, name, t, text, d);
    XmlRoundTrip(p, s, d);
  }

  lemma LeafIsRead(p: Platform, s: Schema, name: string, t: string, text: string, d: Document)
    requires WellFormed(d) && !Exceeds(RenderDocument(d), 0, MAX_DEPTH) && View(d.root) == XElement(name, None, [XText(text)])
    requires GlobalType(s, name) == Some(t) && IsLeafType(s, t) && LeafKind(s, t).AnyText? && Trim(text) == text
    ensures FromXml(p, s, d) == Ok(Message(name, Leaf(Str(text))))
  {
    assert TextOf(View(d.root)) == text;
  }
}
