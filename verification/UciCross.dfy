/** Validation across the two serializations: a message read from JSON and carried through
    XML is judged the same. */
module UciCross {
  import opened Wrappers
  import opened UciText
  import opened Primitive
  import opened UciSchema
  import opened UciFacets
  import opened UciInstance
  import opened UciJson
  import opened XmlText
  import opened UciXml
  import opened UciShape
  import opened UciXmlTrip
  import opened UciValidate
  import Decimal

  // ---- Leaves whose text XML keeps -----------------------------------------------------

  /** Text that XML can carry and that re-reading under a kind spells the same: characters XML
      allows, no carriage return, no space around it, and the one spelling the kind's printer
      uses if it is a value of that kind. */
  predicate Canonical(p: Platform, kind: Kind, text: string) {
    XmlChars(text) && '\r' !in text && Trimmed(text) && AsPrinted(p, kind, text)
  }

  predicate AsPrinted(p: Platform, kind: Kind, text: string) {
    match kind
    case Boolean => text != "1" && text != "0"
    case Integer(_, _) =>
      if ParseI64(text).Some? then text == Show(ParseI64(text).value)
      else ParseU64(text).Some? ==> text == Show(ParseU64(text).value)
    case Real(_, _) =>
      var f := p.parseFloat(text);
      f.Some? && Finite(f.value) ==> text == p.printFloat(f.value)
    case _ => true
  }

  lemma PrintedExactly(p: Platform, kind: Kind, text: string)
    ensures AsText(p, ParseText(p, kind, text)) == text <==> AsPrinted(p, kind, text)
  {
  }

  /** The leaf is written as text a parser accepts, and its text comes back the same. */
  predicate Survives(p: Platform, s: Schema, leaf: Simple, t: string) {
    XmlChars(AsText(p, leaf)) && AsText(p, Carried(p, s, leaf, t)) == AsText(p, leaf)
  }

  /** Canonical text is exactly the text that survives a trip through XML. */
  lemma CanonicalExactly(p: Platform, s: Schema, leaf: Simple, t: string)
    requires Faithful(p)
    ensures Survives(p, s, leaf, t) <==> Canonical(p, LeafKind(s, t), AsText(p, leaf))
  {
    var text, kind := AsText(p, leaf), LeafKind(s, t);
    EolFixed(text);
    TrimMeaning(text);
    if '\r' !in text && Trimmed(text) {
      PrintedExactly(p, kind, text);
    } else {
      CarriedIsOther(p, kind, text);
    }
  }

  lemma CarriedIsOther(p: Platform, kind: Kind, text: string)
    requires Faithful(p) && ('\r' in text || !Trimmed(text))
    ensures AsText(p, ParseText(p, kind, Trim(Eol(text)))) != text
  {
    EolHasNoReturn(text);
    TrimMeaning(Eol(text));
    TrimKeepsChars(Eol(text));
    CarriedIsTame(p, kind, Trim(Eol(text)));
  }

  lemma CarriedIsTame(p: Platform, kind: Kind, text: string)
    requires Faithful(p) && Trimmed(text) && '\r' !in text
    ensures Trimmed(AsText(p, ParseText(p, kind, text))) && '\r' !in AsText(p, ParseText(p, kind, text))
  {
    var leaf := ParseText(p, kind, text);
    if leaf.Num? && leaf.number.Int? {
      ShowIsVisible(leaf.number.n);
      VisibleIsTame(Show(leaf.number.n));
    } else if leaf.Num? {
      VisibleIsTame(p.printFloat(leaf.number.f));
    }
  }

  /** No text with a carriage return survives, whatever else it holds: under a string type it
      comes back with line feeds instead, and an enumeration that lists it alone accepts what
      was sent and refuses what comes back. */
  lemma ReturnIsLost(p: Platform, s: Schema, t: string, path: string, x: string)
    requires '\r' in x && LeafKind(s, t).AnyText?
    ensures var y := Trim(Eol(x));
            && Carried(p, s, Str(x), t) == Str(y) && y != x && !Survives(p, s, Str(x), t)
            && (EffectiveOf(s, t) == NO_FACETS.(enumeration := Some([x])) ==>
                  ValueViolations(p, s, x, t, path) == [] && ValueViolations(p, s, y, t, path) != [])
  {
    var y := Trim(Eol(x));
    EolHasNoReturn(x);
    TrimKeepsChars(Eol(x));
    if EffectiveOf(s, t) == NO_FACETS.(enumeration := Some([x])) { ListedAlone(p, s, t, path, x, y); }
  }

  lemma ListedAlone(p: Platform, s: Schema, t: string, path: string, x: string, y: string)
    requires LeafKind(s, t).AnyText? && EffectiveOf(s, t) == NO_FACETS.(enumeration := Some([x])) && x != y
    ensures ValueViolations(p, s, x, t, path) == [] && ValueViolations(p, s, y, t, path) != []
  {
    ValueExact(p, s, x, t, path);
    ValueExact(p, s, y, t, path);
  }

  /** Booleans, and numbers JSON carries under a type of their own kind, are canonical. */
  lemma TypedLeavesAreCanonical(p: Platform, leaf: Simple, kind: Kind)
    requires Faithful(p)
    requires || (leaf.Bool? && kind.Boolean?)
             || (leaf.Num? && leaf.number.Int? && -Decimal.I64_LIMIT <= leaf.number.n < Decimal.U64_LIMIT && kind.Integer?)
             || (leaf.Num? && leaf.number.Float? && Finite(leaf.number.f) && kind.Real?)
    ensures Canonical(p, kind, AsText(p, leaf))
  {
    if leaf.Bool? {
      VisibleIsTame(AsText(p, leaf));
    } else if leaf.number.Int? {
      var n := leaf.number.n;
      ShowIsVisible(n);
      VisibleIsTame(Show(n));
      CodesOfShow(n);
      if n < Decimal.I64_LIMIT {
        Decimal.ParseSignedOfPrint(n);
      } else {
        Decimal.ParseSignedPastRange(n);
        Decimal.ParseOfPrint(n);
      }
    } else {
      VisibleIsTame(p.printFloat(leaf.number.f));
    }
  }

  /** Canonical leaves throughout, each under its own declared type. */
  predicate StableLeaves(p: Platform, s: Schema, n: Node, t: string)
    decreases n, 1
  {
    match n
    case Leaf(x) => Canonical(p, LeafKind(s, t), AsText(p, x))
    case Complex(_, fields) =>
      var decls := DeclsOf(s, ActualOf(n, t));
      decls.Ok? ==>
        forall i :: 0 <= i < |fields| ==> StableField(p, s, fields[i].field, ChildType(decls.value, fields[i].name))
  }

  predicate StableField(p: Platform, s: Schema, f: Field, t: string)
    decreases f, 2
  {
    match f
    case One(n) => StableLeaves(p, s, n, t)
    case Many(ns) => forall i :: 0 <= i < |ns| ==> StableLeaves(p, s, ns[i], t)
  }

  /** Stable leaves are spellable. */
  lemma {:induction false} StableIsSpellable(p: Platform, s: Schema, n: Node, t: string)
    requires Shaped(s, n, t) && StableLeaves(p, s, n, t)
    ensures Spellable(p, n)
    decreases n, 1
  {
    if n.Complex? {
      var decls := Flatten(s, ActualOf(n, t)).value;
      forall i | 0 <= i < |n.fields| ensures SpellableField(p, n.fields[i].field) {
        var f, u := n.fields[i].field, ChildType(decls, n.fields[i].name);
        assert ShapedField(s, f, u, Repeats(decls, n.fields[i].name)) && StableField(p, s, f, u);
        match f {
          case One(child) => StableIsSpellable(p, s, child, u);
          case Many(ns) => forall k | 0 <= k < |ns| ensures Spellable(p, ns[k]) { StableIsSpellable(p, s, ns[k], u); }
        }
      }
    }
  }

  // ---- What JSON gives is shaped -------------------------------------------------------

  lemma {:induction false} JsonIsShaped(p: Platform, s: Schema, v: Json, t: string, depth: nat)
    requires IsMap(v) && ReadNode(p, s, v, t, depth).Ok?
    ensures Shaped(s, ReadNode(p, s, v, t, depth).value, t)
    decreases v, 1
  {
    if !IsLeafType(s, t) {
      var actual := ActualType(v.members, t);
      var decls := Flatten(s, actual).value;
      var fields := ReadMembers(p, s, v.members, decls, depth + 1).value;
      MembersAreShaped(p, s, v.members, decls, depth + 1);
      FieldNames(p, s, v.members, decls, depth + 1);
      AscendingIsDistinct(fields);
      assert ActualOf(Complex(Override(actual, t), fields), t) == actual;
    }
  }

  lemma AscendingIsDistinct(fields: seq<NamedField>)
    requires forall i, j :: 0 <= i < j < |fields| ==> Before(fields[i].name, fields[j].name)
    ensures DistinctNames(fields)
  {
    forall i, j | 0 <= i < j < |fields|
      ensures fields[i].name != fields[j].name
    {
      BeforeTotal(fields[i].name, fields[i].name);
    }
  }

  ghost predicate FieldsAreShaped(s: Schema, fields: seq<NamedField>, decls: seq<ElementDecl>) {
    forall i :: 0 <= i < |fields| ==>
      ShapedField(s, fields[i].field, ChildType(decls, fields[i].name), Repeats(decls, fields[i].name))
  }

  lemma {:induction false} MembersAreShaped(p: Platform, s: Schema, ms: seq<Member>, decls: seq<ElementDecl>, depth: nat)
    requires (forall i :: 0 <= i < |ms| ==> IsMap(ms[i].value)) && ReadMembers(p, s, ms, decls, depth).Ok?
    ensures FieldsAreShaped(s, ReadMembers(p, s, ms, decls, depth).value, decls)
    decreases ms
  {
    if ms != [] {
      assert forall i :: 0 <= i < |ms[1..]| ==> ms[1..][i] == ms[i + 1];
      MembersAreShaped(p, s, ms[1..], decls, depth);
      if ms[0].key != TYPE_KEY {
        FieldIsShaped(p, s, ms[0].value, ChildType(decls, ms[0].key), Repeats(decls, ms[0].key), depth);
      }
    }
  }

  lemma {:induction false} FieldIsShaped(p: Platform, s: Schema, v: Json, t: string, repeats: bool, depth: nat)
    requires IsMap(v) && ReadField(p, s, v, t, repeats, depth).Ok?
    ensures ShapedField(s, ReadField(p, s, v, t, repeats, depth).value, t, repeats)
    decreases v, 2
  {
    if repeats && v.JArray? {
      ItemsAreShaped(p, s, v.items, t, depth);
    } else {
      JsonIsShaped(p, s, v, t, depth);
    }
  }

  lemma {:induction false} ItemsAreShaped(p: Platform, s: Schema, vs: seq<Json>, t: string, depth: nat)
    requires (forall i :: 0 <= i < |vs| ==> IsMap(vs[i])) && ReadItems(p, s, vs, t, depth).Ok?
    ensures var ns := ReadItems(p, s, vs, t, depth).value;
            forall i :: 0 <= i < |ns| ==> Shaped(s, ns[i], t)
    decreases vs
  {
    if vs != [] {
      assert forall i :: 0 <= i < |vs[1..]| ==> vs[1..][i] == vs[i + 1];
      JsonIsShaped(p, s, vs[0], t, depth);
      ItemsAreShaped(p, s, vs[1..], t, depth);
    }
  }

  // ---- What validation looks at --------------------------------------------------------

  /** An element occurs as often as before: only empty repetitions are gone. */
  lemma {:induction false} NormalCounts(p: Platform, s: Schema, fields: seq<NamedField>, decls: seq<ElementDecl>, name: string)
    requires DistinctNames(fields)
    ensures Count(NormalFields(p, s, fields, decls), name) == Count(fields, name)
  {
    if fields != [] {
      var rest := fields[1..];
      assert forall i :: 0 <= i < |rest| ==> rest[i] == fields[i + 1];
      NormalCounts(p, s, rest, decls, name);
      if fields[0].name == name { NoSecond(rest, name); }
      var normal := NormalFields(p, s, fields, decls);
      if fields[0].field != Many([]) {
        assert normal[1..] == NormalFields(p, s, rest, decls);
      }
    }
  }

  lemma {:induction false} NoSecond(fields: seq<NamedField>, name: string)
    requires forall i :: 0 <= i < |fields| ==> fields[i].name != name
    ensures GetField(fields, name) == None
  {
    if fields != [] {
      assert forall i :: 0 <= i < |fields[1..]| ==> fields[1..][i] == fields[i + 1];
      NoSecond(fields[1..], name);
    }
  }

  ghost predicate SameCounts(a: seq<NamedField>, b: seq<NamedField>) {
    forall name :: Count(a, name) == Count(b, name)
  }

  lemma {:induction false} SameSequence(els: seq<ElementDecl>, a: seq<NamedField>, b: seq<NamedField>, path: string)
    requires SameCounts(a, b)
    ensures SequenceViolations(els, a, path) == SequenceViolations(els, b, path)
    ensures Taken(els, a) == Taken(els, b)
  {
    if els != [] {
      assert Count(a, els[0].name) == Count(b, els[0].name);
      SameSequence(els[1..], a, b, path);
    }
  }

  lemma {:induction false} SameGroups(groups: seq<Group>, a: seq<NamedField>, b: seq<NamedField>, path: string)
    requires SameCounts(a, b)
    ensures GroupsViolations(groups, a, path) == GroupsViolations(groups, b, path)
  {
    if groups != [] {
      SameGroups(groups[1..], a, b, path);
      var els := groups[0].elements;
      SameSequence(els, a, b, path);
      var taken := Taken(els, a);
      if taken != [] { assert Count(a, taken[0].name) == Count(b, taken[0].name); }
    }
  }

  /** Only declared elements repeat, so the ones that vanish were declared. */
  lemma {:induction false} SameUndeclared(p: Platform, s: Schema, fields: seq<NamedField>, decls: seq<ElementDecl>, path: string)
    requires FieldsAreShaped(s, fields, decls)
    ensures UndeclaredViolations(NormalFields(p, s, fields, decls), decls, path) == UndeclaredViolations(fields, decls, path)
  {
    if fields != [] {
      var rest := fields[1..];
      assert forall i :: 0 <= i < |rest| ==> rest[i] == fields[i + 1];
      SameUndeclared(p, s, rest, decls, path);
      assert ShapedField(s, fields[0].field, ChildType(decls, fields[0].name), Repeats(decls, fields[0].name));
      if fields[0].field != Many([]) {
        var first := NamedField(fields[0].name, NormalField(p, s, fields[0].field, ChildType(decls, fields[0].name)));
        UndeclaredCons(first, NormalFields(p, s, rest, decls), decls, path);
      } else {
        assert FindDecl(decls, fields[0].name).Some?;
      }
    }
  }

  lemma UndeclaredCons(f: NamedField, rest: seq<NamedField>, decls: seq<ElementDecl>, path: string)
    ensures UndeclaredViolations([f] + rest, decls, path) ==
            When(FindDecl(decls, f.name).Some?, path, Undeclared(f.name)) + UndeclaredViolations(rest, decls, path)
  {
    assert ([f] + rest)[1..] == rest;
  }

  // ---- The same violations -------------------------------------------------------------

  ghost predicate FieldsAreStable(p: Platform, s: Schema, fields: seq<NamedField>, decls: seq<ElementDecl>) {
    forall i :: 0 <= i < |fields| ==> StableField(p, s, fields[i].field, ChildType(decls, fields[i].name))
  }

  /** What XML keeps of a stable tree has the very same violations, paths and texts
      included. */
  lemma {:induction false} SameViolations(p: Platform, s: Schema, n: Node, t: string, path: string, depth: nat)
    requires Faithful(p) && Shaped(s, n, t) && StableLeaves(p, s, n, t)
    ensures Violations(p, s, Normal(p, s, n, t), t, path, depth) == Violations(p, s, n, t, path, depth)
    decreases n, 1
  {
    if n.Leaf? {
      CanonicalExactly(p, s, n.simple, t);
    } else {
      var decls := Flatten(s, ActualOf(n, t)).value;
      var normal := NormalFields(p, s, n.fields, decls);
      forall name ensures Count(normal, name) == Count(n.fields, name) { NormalCounts(p, s, n.fields, decls, name); }
      SameGroups(GroupsOf(s, ActualOf(n, t)).value, normal, n.fields, path);
      assert FieldsAreShaped(s, n.fields, decls);
      SameUndeclared(p, s, n.fields, decls, path);
      SameFields(p, s, n.fields, decls, path, depth + 1);
    }
  }

  lemma {:induction false} SameFields(p: Platform, s: Schema, fields: seq<NamedField>, decls: seq<ElementDecl>, path: string, depth: nat)
    requires Faithful(p) && FieldsAreShaped(s, fields, decls) && FieldsAreStable(p, s, fields, decls)
    ensures FieldsViolations(p, s, NormalFields(p, s, fields, decls), decls, path, depth) == FieldsViolations(p, s, fields, decls, path, depth)
    decreases fields
  {
    if fields != [] {
      var f, rest := fields[0], fields[1..];
      assert forall i :: 0 <= i < |rest| ==> rest[i] == fields[i + 1];
      SameFields(p, s, rest, decls, path, depth);
      var d, child := FindDecl(decls, f.name), path + "." + f.name;
      var t := ChildType(decls, f.name);
      assert ShapedField(s, f.field, t, Repeats(decls, f.name)) && StableField(p, s, f.field, t);
      match f.field {
        case One(n) => SameViolations(p, s, n, t, child, depth);
        case Many(ns) => SameItems(p, s, ns, t, child, 0, depth);
      }
      if f.field != Many([]) {
        assert NormalFields(p, s, fields, decls)[1..] == NormalFields(p, s, rest, decls);
      } else {
        assert FieldViolations(p, s, f.field, d, child, depth) == [];
        assert FieldsViolations(p, s, fields, decls, path, depth) == FieldsViolations(p, s, rest, decls, path, depth);
      }
    }
  }

  lemma {:induction false} SameItems(p: Platform, s: Schema, ns: seq<Node>, t: string, path: string, from: nat, depth: nat)
    requires Faithful(p) && forall i :: 0 <= i < |ns| ==> Shaped(s, ns[i], t) && StableLeaves(p, s, ns[i], t)
    ensures ItemsViolations(p, s, NormalItems(p, s, ns, t), t, path, from, depth) == ItemsViolations(p, s, ns, t, path, from, depth)
    decreases ns
  {
    if ns != [] {
      var rest := ns[1..];
      assert forall i :: 0 <= i < |rest| ==> rest[i] == ns[i + 1];
      SameViolations(p, s, ns[0], t, path + "[" + Show(from) + "]", depth);
      SameItems(p, s, rest, t, path, from + 1, depth);
      assert NormalItems(p, s, ns, t)[1..] == NormalItems(p, s, rest, t);
    }
  }

  /** A JSON message without a root override, with stable leaves and names XML can spell:
      written as XML and read back it has the identical list of violations, unless it has
      the one level more than XML is read with. */
  lemma JudgedTheSame(p: Platform, s: Schema, v: Json)
    requires Faithful(p) && IsMap(v) && FromJson(p, s, v).Ok?
    requires var m := FromJson(p, s, v).value;
             && SafeName(m.name) && SafeNode(m.body)
             && (m.body.Complex? ==> m.body.typeName.None?)
             && StableLeaves(p, s, m.body, s.globalElements[m.name])
    ensures var m := FromJson(p, s, v).value;
            NodeHeight(m.body) <= MAX_DEPTH ==>
              && ToXml(p, s, m).Ok?
              && var again := FromXml(p, s, ToXml(p, s, m).value);
                 && again.Ok?
                 && AllViolations(p, s, again.value) == AllViolations(p, s, m)
                 && (MessageConforms(p, s, again.value) <==> MessageConforms(p, s, m))
  {
    var m := FromJson(p, s, v).value;
    var t := s.globalElements[m.name];
    JsonIsShaped(p, s, v.members[0].value, t, 0);
    StableIsSpellable(p, s, m.body, t);
    XmlTrip(p, s, m);
    if NodeHeight(m.body) <= MAX_DEPTH {
      SameViolations(p, s, m.body, t, m.name, 0);
      ConformsExactly(p, s, m.body, t, m.name, 0);
      ConformsExactly(p, s, Normal(p, s, m.body, t), t, m.name, 0);
    }
  }
}
