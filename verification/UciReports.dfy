/** Which violations are reported: each fault of each element that is reached, under the path
    that leads to it, and nothing else (crates/oa-gateway-uci/src/validate/rules.rs). */
module UciReports {
  import opened Wrappers
  import opened UciText
  import opened Primitive
  import opened UciSchema
  import opened UciFacets
  import opened UciInstance
  import opened UciValidate
  import Utf8
  import Hex

  // ---- One leaf ------------------------------------------------------------------------

  predicate GivenLength(e: Effective, rule: LengthRule) {
    match rule
    case Exactly(n) => e.length == Some(n)
    case AtLeast(n) => e.minLength == Some(n)
    case AtMost(n) => e.maxLength == Some(n)
  }

  predicate GivenRange(e: Effective, rule: RangeRule) {
    match rule
    case NoLess(b) => e.minInclusive == Some(b)
    case NoMore(b) => e.maxInclusive == Some(b)
    case More(b) => e.minExclusive == Some(b)
    case Fewer(b) => e.maxExclusive == Some(b)
  }

  /** A facet that a value fails, told with what it asks for. */
  predicate FacetFault(p: Platform, e: Effective, v: Value, octets: bool, kind: ViolationKind) {
    match kind
    case NotEnumerated(text, allowed, total) =>
      && text == v.text && e.enumeration.Some? && v.text !in e.enumeration.value
      && allowed <= e.enumeration.value && total == |e.enumeration.value| && |allowed| == (if total < 4 then total else 4)
    case WrongLength(text, len, inOctets, rule) =>
      text == v.text && len == v.length && inOctets == octets && GivenLength(e, rule) && !MeetsLength(v.length, rule)
    case PatternMismatch(text, patterns) => text == v.text && patterns in e.patterns && !MatchesAny(p, patterns, v.text)
    case OutOfRange(text, rule) => text == v.text && v.number.Some? && GivenRange(e, rule) && !MeetsRange(v.number.value, rule)
    case _ => false
  }

  lemma {:induction false} PatternReports(p: Platform, groups: seq<seq<string>>, text: string, path: string, x: Violation)
    ensures x in PatternViolations(p, groups, text, path) <==>
            && x.path == path && x.kind.PatternMismatch? && x.kind.value == text
            && x.kind.patterns in groups && !MatchesAny(p, x.kind.patterns, text)
  {
    if groups != [] {
      PatternReports(p, groups[1..], text, path, x);
      assert groups == [groups[0]] + groups[1..];
    }
  }

  lemma LengthReports(e: Effective, v: Value, octets: bool, path: string, x: Violation)
    ensures x in LengthViolations(e, v, octets, path) <==>
            x.path == path && x.kind.WrongLength? && x.kind == WrongLength(v.text, v.length, octets, x.kind.rule)
            && GivenLength(e, x.kind.rule) && !MeetsLength(v.length, x.kind.rule)
  {
  }

  lemma RangeReports(e: Effective, text: string, number: Option<F64>, path: string, x: Violation)
    ensures x in RangeViolations(e, text, number, path) <==>
            x.path == path && x.kind.OutOfRange? && x.kind.value == text
            && number.Some? && GivenRange(e, x.kind.range) && !MeetsRange(number.value, x.kind.range)
  {
    if number.Some? {
      var n := number.value;
      BoundReports(n, text, path, Low(e.minInclusive), x);
      BoundReports(n, text, path, High(e.maxInclusive), x);
      BoundReports(n, text, path, Over(e.minExclusive), x);
      BoundReports(n, text, path, Under(e.maxExclusive), x);
      InOneOf(RangeViolation(n, text, path, Low(e.minInclusive)), RangeViolation(n, text, path, High(e.maxInclusive)),
              RangeViolation(n, text, path, Over(e.minExclusive)), RangeViolation(n, text, path, Under(e.maxExclusive)), x);
      if x.kind.OutOfRange? { GivenAsOption(e, x.kind.range); }
    }
  }

  lemma BoundReports(number: F64, text: string, path: string, rule: Option<RangeRule>, x: Violation)
    ensures x in RangeViolation(number, text, path, rule) <==>
            x.path == path && rule.Some? && x.kind == OutOfRange(text, rule.value) && !MeetsRange(number, rule.value)
  {
  }

  lemma GivenAsOption(e: Effective, rule: RangeRule)
    ensures GivenRange(e, rule) <==>
            Some(rule) in {Low(e.minInclusive), High(e.maxInclusive), Over(e.minExclusive), Under(e.maxExclusive)}
  {
  }

  lemma InOneOf(a: seq<Violation>, b: seq<Violation>, c: seq<Violation>, d: seq<Violation>, x: Violation)
    ensures x in a + (b + (c + d)) <==> x in a || x in b || x in c || x in d
  {
  }

  /** Every facet that fails is reported, and no other. */
  lemma FacetReports(p: Platform, e: Effective, v: Value, octets: bool, path: string, x: Violation)
    ensures x in FacetViolations(p, e, v, octets, path) <==> x.path == path && FacetFault(p, e, v, octets, x.kind)
  {
    PatternReports(p, e.patterns, v.text, path, x);
    LengthReports(e, v, octets, path, x);
    RangeReports(e, v.text, v.number, path, x);
    EnumerationReports(e, v.text, path, x);
    InOneOf(EnumerationViolations(e, v.text, path), LengthViolations(e, v, octets, path),
            PatternViolations(p, e.patterns, v.text, path), RangeViolations(e, v.text, v.number, path), x);
    FaultByKind(p, e, v, octets, x.kind);
  }

  lemma FaultByKind(p: Platform, e: Effective, v: Value, octets: bool, kind: ViolationKind)
    ensures FacetFault(p, e, v, octets, kind) ==> kind.NotEnumerated? || kind.WrongLength? || kind.PatternMismatch? || kind.OutOfRange?
  {
  }

  lemma EnumerationReports(e: Effective, text: string, path: string, x: Violation)
    ensures x in EnumerationViolations(e, text, path) <==>
            && x.path == path && x.kind.NotEnumerated? && x.kind.value == text
            && e.enumeration.Some? && text !in e.enumeration.value
            && x.kind.allowed <= e.enumeration.value && x.kind.total == |e.enumeration.value|
            && |x.kind.allowed| == (if x.kind.total < 4 then x.kind.total else 4)
  {
    if e.enumeration.Some? {
      var all := e.enumeration.value;
      if x.kind.NotEnumerated? && x.kind.allowed <= all { assert x.kind.allowed == all[..|x.kind.allowed|]; }
      assert all[..|all|] == all;
    }
  }

  /** What is wrong with a leaf: that its text is no value of its primitive, or else each facet
      it fails. */
  predicate LeafFault(p: Platform, s: Schema, text: string, t: string, kind: ViolationKind) {
    var primitive := Reduce(s, t, MAX_SIMPLE_DEPTH);
    match Refuses(p, KindOf(primitive), text)
    case Some(expected) => kind == NotLexical(text, primitive, expected)
    case None => FacetFault(p, EffectiveOf(s, t), ValueOf(p, text, KindOf(primitive)), KindOf(primitive).HexBinary?, kind)
  }

  lemma LeafReports(p: Platform, s: Schema, text: string, t: string, path: string, x: Violation)
    ensures x in ValueViolations(p, s, text, t, path) <==> x.path == path && LeafFault(p, s, text, t, x.kind)
  {
    var kind := KindOf(Reduce(s, t, MAX_SIMPLE_DEPTH));
    FacetReports(p, EffectiveOf(s, t), ValueOf(p, text, kind), kind.HexBinary?, path, x);
  }

  // ---- One level -----------------------------------------------------------------------

  /** An element that occurs too seldom or too often for its declaration in a sequence. */
  predicate OccurrenceFault(d: ElementDecl, found: nat, kind: ViolationKind) {
    || (found == 0 < d.minOccurs && kind == Missing(d.name))
    || (0 < found < d.minOccurs && kind == TooFew(d.name, d.minOccurs, found))
    || (d.maxOccurs.Bounded? && found > d.maxOccurs.n && kind == TooMany(d.name, d.maxOccurs.n, found))
  }

  predicate SequenceFault(els: seq<ElementDecl>, fields: seq<NamedField>, kind: ViolationKind) {
    exists i :: 0 <= i < |els| && OccurrenceFault(els[i], |Occurrences(fields, els[i].name)|, kind)
  }

  lemma {:induction false} SequenceReports(els: seq<ElementDecl>, fields: seq<NamedField>, path: string, x: Violation)
    ensures x in SequenceViolations(els, fields, path) <==> x.path == path && SequenceFault(els, fields, x.kind)
  {
    if els != [] {
      SequenceReports(els[1..], fields, path, x);
      SequenceFaultCons(els, fields, x.kind);
      OccurrenceReports(els[0], Count(fields, els[0].name), path, x);
    }
  }

  lemma SequenceFaultCons(els: seq<ElementDecl>, fields: seq<NamedField>, kind: ViolationKind)
    requires els != []
    ensures SequenceFault(els, fields, kind) <==>
            OccurrenceFault(els[0], |Occurrences(fields, els[0].name)|, kind) || SequenceFault(els[1..], fields, kind)
  {
    assert forall i :: 0 < i < |els| ==> els[i] == els[1..][i - 1];
  }

  lemma OccurrenceReports(d: ElementDecl, found: nat, path: string, x: Violation)
    ensures x in OccurrenceViolations(d, found, path) <==> x.path == path && OccurrenceFault(d, found, x.kind)
  {
  }

  predicate Present(d: ElementDecl, fields: seq<NamedField>) {
    Occurrences(fields, d.name) != []
  }

  /** A choice with none of its alternatives there, with two, or with one too often. */
  predicate ChoiceFault(els: seq<ElementDecl>, fields: seq<NamedField>, kind: ViolationKind) {
    match kind
    case NoAlternative(alternatives) => alternatives == Names(els) && forall i :: 0 <= i < |els| ==> !Present(els[i], fields)
    case ManyAlternatives(taken) =>
      && (exists i, j :: 0 <= i < j < |els| && Present(els[i], fields) && Present(els[j], fields))
      && taken == Names(PresentOnes(els, fields))
    case TooMany(element, max, found) =>
      exists i :: 0 <= i < |els| && OnlyTaken(els, fields, i) && element == els[i].name
                  && found == |Occurrences(fields, element)| > max && els[i].maxOccurs == Bounded(max)
    case _ => false
  }

  /** The alternatives that are there, in the order they are declared. */
  function PresentOnes(els: seq<ElementDecl>, fields: seq<NamedField>): seq<ElementDecl> {
    if els == [] then []
    else PresentOnes(els[..|els| - 1], fields) + if Present(els[|els| - 1], fields) then [els[|els| - 1]] else []
  }

  lemma {:induction false} TakenAppend(els: seq<ElementDecl>, d: ElementDecl, fields: seq<NamedField>)
    ensures Taken(els + [d], fields) == Taken(els, fields) + if Present(d, fields) then [d] else []
  {
    if els == [] {
      assert els + [d] == [d] && [d][1..] == [];
    } else {
      assert (els + [d])[1..] == els[1..] + [d];
      TakenAppend(els[1..], d, fields);
    }
  }

  lemma {:induction false} TakenArePresent(els: seq<ElementDecl>, fields: seq<NamedField>)
    ensures Taken(els, fields) == PresentOnes(els, fields)
  {
    if els != [] {
      TakenArePresent(els[..|els| - 1], fields);
      TakenAppend(els[..|els| - 1], els[|els| - 1], fields);
      assert els == els[..|els| - 1] + [els[|els| - 1]];
    }
  }

  /** Two alternatives are there exactly when more than one is taken. */
  lemma {:induction false} TwoTaken(els: seq<ElementDecl>, fields: seq<NamedField>)
    ensures |Taken(els, fields)| > 1 <==> exists i, j :: 0 <= i < j < |els| && Present(els[i], fields) && Present(els[j], fields)
  {
    if els != [] {
      var rest := els[1..];
      TwoTaken(rest, fields);
      NoneTaken(rest, fields);
      assert forall i :: 0 <= i < |rest| ==> rest[i] == els[i + 1];
      if i, j :| 0 <= i < j < |rest| && Present(rest[i], fields) && Present(rest[j], fields) {
        assert Present(els[i + 1], fields) && Present(els[j + 1], fields);
      }
      if i, j :| 0 <= i < j < |els| && Present(els[i], fields) && Present(els[j], fields) {
        assert Present(rest[j - 1], fields);
        if i > 0 { assert Present(rest[i - 1], fields); }
      }
      if Present(els[0], fields) && Taken(rest, fields) != [] {
        var j :| 0 <= j < |rest| && Count(fields, rest[j].name) != 0;
        assert Present(els[j + 1], fields);
      }
    }
  }

  /** One alternative is there. */
  lemma OneReports(els: seq<ElementDecl>, fields: seq<NamedField>, path: string, i: nat, x: Violation)
    requires OnlyTaken(els, fields, i)
    ensures x in ChoiceViolations(els, fields, path) <==> x.path == path && ChoiceFault(els, fields, x.kind)
  {
    OneTaken(els, fields, i);
    ChosenIsOnly(els, fields, i);
    assert Present(els[i], fields);
    TwoTaken(els, fields);
    var found := |Occurrences(fields, els[i].name)|;
    assert x in ChoiceViolations(els, fields, path) <==>
           x.path == path && els[i].maxOccurs.Bounded? && found > els[i].maxOccurs.n && x.kind == TooMany(els[i].name, els[i].maxOccurs.n, found);
  }

  lemma ChoiceReports(els: seq<ElementDecl>, fields: seq<NamedField>, path: string, x: Violation)
    ensures x in ChoiceViolations(els, fields, path) <==> x.path == path && ChoiceFault(els, fields, x.kind)
  {
    NoneTaken(els, fields);
    TwoTaken(els, fields);
    TakenArePresent(els, fields);
    if |Taken(els, fields)| == 1 {
      var i := TakenOne(els, fields);
      OneReports(els, fields, path, i, x);
    } else {
      forall i | 0 <= i < |els| ensures !OnlyTaken(els, fields, i) {
        if OnlyTaken(els, fields, i) { OneTaken(els, fields, i); }
      }
    }
  }

  predicate GroupFault(g: Group, fields: seq<NamedField>, kind: ViolationKind) {
    match g.kind
    case Sequence => SequenceFault(g.elements, fields, kind)
    case Choice => ChoiceFault(g.elements, fields, kind)
  }

  lemma {:induction false} GroupReports(groups: seq<Group>, fields: seq<NamedField>, path: string, x: Violation)
    ensures x in GroupsViolations(groups, fields, path) <==>
            x.path == path && exists i :: 0 <= i < |groups| && GroupFault(groups[i], fields, x.kind)
  {
    if groups != [] {
      GroupReports(groups[1..], fields, path, x);
      SequenceReports(groups[0].elements, fields, path, x);
      ChoiceReports(groups[0].elements, fields, path, x);
      assert forall i :: 0 < i < |groups| ==> groups[i] == groups[1..][i - 1];
      assert (exists i :: 0 <= i < |groups| && GroupFault(groups[i], fields, x.kind)) <==>
             GroupFault(groups[0], fields, x.kind) || exists i :: 0 <= i < |groups[1..]| && GroupFault(groups[1..][i], fields, x.kind);
    }
  }

  lemma {:induction false} UndeclaredReports(fields: seq<NamedField>, els: seq<ElementDecl>, path: string, x: Violation)
    ensures x in UndeclaredViolations(fields, els, path) <==>
            && x.path == path && x.kind.Undeclared? && FindDecl(els, x.kind.element).None?
            && exists i :: 0 <= i < |fields| && fields[i].name == x.kind.element
  {
    if fields != [] {
      UndeclaredReports(fields[1..], els, path, x);
      assert forall i :: 0 < i < |fields| ==> fields[i] == fields[1..][i - 1];
    }
  }

  /** What is wrong with one node, the nodes below it aside. */
  predicate OwnFault(p: Platform, s: Schema, n: Node, t: string, depth: nat, kind: ViolationKind) {
    if depth > MAX_DEPTH then kind == NestedTooDeep
    else if n.Leaf? then LeafFault(p, s, AsText(p, n.simple), t, kind)
    else
      var actual := ActualOf(n, t);
      || (n.typeName.None? && t in s.complexTypes && s.complexTypes[t].isAbstract && kind == AbstractType(t))
      || match GroupsOf(s, actual)
         case Err(e) => kind == UnusableType(actual, e)
         case Ok(groups) =>
           || (kind.Undeclared? && FindDecl(AllElements(groups), kind.element).None?
               && exists i :: 0 <= i < |n.fields| && n.fields[i].name == kind.element)
           || exists i :: 0 <= i < |groups| && GroupFault(groups[i], n.fields, kind)
  }

  // ---- The walk ------------------------------------------------------------------------

  /** The path of a child. */
  function Child(path: string, name: string): string {
    path + "." + name
  }

  /** The path of one of many children of a name. */
  function Item(path: string, k: nat): string {
    path + "[" + Show(k) + "]"
  }

  /** The walk reaches a fault of kind `x.kind` under path `x.path`: at the node itself, or below
      it through a field its type declares. Nothing below the depth limit is looked at. */
  ghost predicate Reached(p: Platform, s: Schema, n: Node, t: string, path: string, depth: nat, x: Violation)
    decreases n, 1
  {
    || (x.path == path && OwnFault(p, s, n, t, depth, x.kind))
    || (depth <= MAX_DEPTH && n.Complex? && GroupsOf(s, ActualOf(n, t)).Ok?
        && ReachedBelow(p, s, n.fields, AllElements(GroupsOf(s, ActualOf(n, t)).value), path, depth + 1, x))
  }

  ghost predicate ReachedBelow(
      p: Platform, s: Schema, fields: seq<NamedField>, els: seq<ElementDecl>, path: string, depth: nat, x: Violation)
    decreases fields, 0
  {
    exists i :: 0 <= i < |fields| && FindDecl(els, fields[i].name).Some?
                && ReachedIn(p, s, fields[i], FindDecl(els, fields[i].name).value.typeName, path, depth, x)
  }

  ghost predicate ReachedIn(p: Platform, s: Schema, f: NamedField, t: string, path: string, depth: nat, x: Violation)
    decreases f.field, 2
  {
    match f.field
    case One(n) => Reached(p, s, n, t, Child(path, f.name), depth, x)
    case Many(ns) => ReachedAmong(p, s, ns, t, Child(path, f.name), 0, depth, x)
  }

  /** Children of a name are numbered in order. */
  ghost predicate ReachedAmong(p: Platform, s: Schema, ns: seq<Node>, t: string, path: string, from: nat, depth: nat, x: Violation)
    decreases ns, 0
  {
    exists k :: 0 <= k < |ns| && Reached(p, s, ns[k], t, Item(path, from + k), depth, x)
  }

  lemma OwnReports(p: Platform, s: Schema, n: Node, t: string, path: string, depth: nat, x: Violation)
    requires depth <= MAX_DEPTH && n.Complex?
    ensures var groups := GroupsOf(s, ActualOf(n, t));
            x.path == path && OwnFault(p, s, n, t, depth, x.kind) <==>
              || x in AbstractViolations(s, n, t, path)
              || (groups.Err? && x == Violation(path, UnusableType(ActualOf(n, t), groups.error)))
              || (groups.Ok? && x in UndeclaredViolations(n.fields, AllElements(groups.value), path))
              || (groups.Ok? && x in GroupsViolations(groups.value, n.fields, path))
  {
    var groups := GroupsOf(s, ActualOf(n, t));
    if groups.Ok? {
      UndeclaredReports(n.fields, AllElements(groups.value), path, x);
      GroupReports(groups.value, n.fields, path, x);
    }
  }

  /** Everything the walk reaches is in the list, and nothing else is. */
  lemma {:induction false} ReportedExactly(p: Platform, s: Schema, n: Node, t: string, path: string, depth: nat, x: Violation)
    ensures x in Violations(p, s, n, t, path, depth) <==> Reached(p, s, n, t, path, depth, x)
    decreases n, 1
  {
    if depth > MAX_DEPTH { return; }
    if n.Leaf? {
      LeafReports(p, s, AsText(p, n.simple), t, path, x);
      return;
    }
    OwnReports(p, s, n, t, path, depth, x);
    var groups := GroupsOf(s, ActualOf(n, t));
    if groups.Ok? { FieldsReport(p, s, n.fields, AllElements(groups.value), path, depth + 1, x); }
  }

  lemma {:induction false} FieldsReport(
      p: Platform, s: Schema, fields: seq<NamedField>, els: seq<ElementDecl>, path: string, depth: nat, x: Violation)
    ensures x in FieldsViolations(p, s, fields, els, path, depth) <==> ReachedBelow(p, s, fields, els, path, depth, x)
    decreases fields
  {
    if fields != [] {
      var d := FindDecl(els, fields[0].name);
      FieldsReport(p, s, fields[1..], els, path, depth, x);
      if d.Some? { FieldReports(p, s, fields[0], d.value, path, depth, x); }
      BelowCons(p, s, fields, els, path, depth, x);
    }
  }

  lemma BelowCons(p: Platform, s: Schema, fields: seq<NamedField>, els: seq<ElementDecl>, path: string, depth: nat, x: Violation)
    requires fields != []
    ensures var d := FindDecl(els, fields[0].name);
            ReachedBelow(p, s, fields, els, path, depth, x) <==>
              (d.Some? && ReachedIn(p, s, fields[0], d.value.typeName, path, depth, x)) || ReachedBelow(p, s, fields[1..], els, path, depth, x)
  {
    assert forall i :: 0 < i < |fields| ==> fields[i] == fields[1..][i - 1];
  }

  lemma {:induction false} FieldReports(
      p: Platform, s: Schema, f: NamedField, d: ElementDecl, path: string, depth: nat, x: Violation)
    ensures x in FieldViolations(p, s, f.field, Some(d), path + "." + f.name, depth) <==> ReachedIn(p, s, f, d.typeName, path, depth, x)
    decreases f.field, 2
  {
    match f.field {
      case One(n) => ReportedExactly(p, s, n, d.typeName, Child(path, f.name), depth, x);
      case Many(ns) => ItemsReport(p, s, ns, d.typeName, Child(path, f.name), 0, depth, x);
    }
  }

  lemma {:induction false} ItemsReport(p: Platform, s: Schema, ns: seq<Node>, t: string, path: string, from: nat, depth: nat, x: Violation)
    ensures x in ItemsViolations(p, s, ns, t, path, from, depth) <==> ReachedAmong(p, s, ns, t, path, from, depth, x)
    decreases ns
  {
    if ns != [] {
      ReportedExactly(p, s, ns[0], t, Item(path, from), depth, x);
      ItemsReport(p, s, ns[1..], t, path, from + 1, depth, x);
      AmongCons(p, s, ns, t, path, from, depth, x);
    }
  }

  lemma AmongCons(p: Platform, s: Schema, ns: seq<Node>, t: string, path: string, from: nat, depth: nat, x: Violation)
    requires ns != []
    ensures ReachedAmong(p, s, ns, t, path, from, depth, x) <==>
            Reached(p, s, ns[0], t, Item(path, from), depth, x) || ReachedAmong(p, s, ns[1..], t, path, from + 1, depth, x)
  {
    assert forall k :: 0 <= k < |ns[1..]| ==> ns[1..][k] == ns[k + 1] && Item(path, from + 1 + k) == Item(path, from + (k + 1));
    if k :| 0 <= k < |ns| && Reached(p, s, ns[k], t, Item(path, from + k), depth, x) {
      if k > 0 { assert Reached(p, s, ns[1..][k - 1], t, Item(path, from + 1 + (k - 1)), depth, x); }
    }
    if k :| 0 <= k < |ns[1..]| && Reached(p, s, ns[1..][k], t, Item(path, from + 1 + k), depth, x) {
      assert Reached(p, s, ns[k + 1], t, Item(path, from + (k + 1)), depth, x);
    }
  }

  /** The order in which an element's faults are found: its own, first of its type, then of names
      nothing declares, then of its groups in the order of the schema, and only then those of its
      children. */
  lemma FoundInOrder(p: Platform, s: Schema, n: Node, t: string, path: string, depth: nat)
    requires n.Complex? && depth <= MAX_DEPTH && GroupsOf(s, ActualOf(n, t)).Ok?
    ensures var groups := GroupsOf(s, ActualOf(n, t)).value;
            var els := AllElements(groups);
            Violations(p, s, n, t, path, depth) ==
            AbstractViolations(s, n, t, path) + UndeclaredViolations(n.fields, els, path) + GroupsViolations(groups, n.fields, path)
            + FieldsViolations(p, s, n.fields, els, path, depth + 1)
  {
    var groups := GroupsOf(s, ActualOf(n, t)).value;
    var els := AllElements(groups);
    var a, b, c, d := AbstractViolations(s, n, t, path), UndeclaredViolations(n.fields, els, path),
        GroupsViolations(groups, n.fields, path), FieldsViolations(p, s, n.fields, els, path, depth + 1);
    assert a + (b + (c + d)) == a + b + c + d;
  }

  // ---- The length of a hexBinary value -------------------------------------------------

  /** The bytes of a text of ASCII characters. */
  function Bytes(text: string): (b: Utf8.Text)
    requires forall i :: 0 <= i < |text| ==> IsHexDigit(text[i])
    ensures |b| == |text|
  {
    seq(|text|, i requires 0 <= i < |text| && IsHexDigit(text[i]) => var n: Utf8.byte := text[i] as int; n)
  }

  lemma {:induction false} AllDigitsCount(text: string)
    requires forall i :: 0 <= i < |text| ==> IsHexDigit(text[i])
    ensures HexDigits(text) == |text|
  {
    if text != [] { AllDigitsCount(text[1..]); }
  }

  lemma {:induction false} NothingToStrip(b: Utf8.Text)
    requires Hex.AllHex(b)
    ensures Hex.Strip(b) == b
    ensures |b| % 2 == 0 ==> Hex.Decoded(b).Some?
  {
    if b != [] {
      assert Hex.Nibble(b[0]).Some?;
      assert forall i :: 0 <= i < |b[1..]| ==> b[1..][i] == b[i + 1];
      NothingToStrip(b[1..]);
      if |b| >= 2 {
        assert forall i :: 0 <= i < |b[2..]| ==> b[2..][i] == b[i + 2];
        NothingToStrip(b[2..]);
      }
    }
  }

  /** Text that is let through as hexBinary decodes, and its length is that of the bytes. */
  lemma LengthInOctets(p: Platform, text: string)
    requires Refuses(p, HexBinary, text).None?
    ensures var bytes := Hex.OwpHex(Bytes(text));
            bytes.Some? && ValueLength(text, HexBinary) == |bytes.value|
  {
    AllDigitsCount(text);
    var b := Bytes(text);
    forall i | 0 <= i < |b| ensures Hex.Nibble(b[i]).Some? {}
    NothingToStrip(b);
    Hex.DecodedLength(b);
  }

  /** A name repeats exactly when its declaration lets it occur twice. */
  lemma RepeatsExactly(decls: seq<ElementDecl>, name: string)
    ensures Repeats(decls, name) <==> FindDecl(decls, name).Some? && Within(FindDecl(decls, name).value.maxOccurs, 2)
  {
  }

  /** Of several declarations of a name the first counts. */
  lemma {:induction false} FirstDeclaration(decls: seq<ElementDecl>, i: nat)
    requires i < |decls| && forall j :: 0 <= j < i ==> decls[j].name != decls[i].name
    ensures FindDecl(decls, decls[i].name) == Some(decls[i])
  {
    if i > 0 {
      assert decls[0].name != decls[i].name && decls[1..][i - 1] == decls[i];
      assert forall j :: 0 <= j < i - 1 ==> decls[1..][j] == decls[j + 1];
      FirstDeclaration(decls[1..], i - 1);
    }
  }
}
