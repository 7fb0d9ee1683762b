/** Checking a message against its schema (crates/oa-gateway-uci/src/validate/rules.rs). */
module UciValidate {
  import opened Wrappers
  import opened UciText
  import opened Primitive
  import opened UciSchema
  import opened UciFacets
  import opened UciInstance

  const MAX_VIOLATIONS: nat := 32

  datatype LengthRule = Exactly(n: nat) | AtLeast(n: nat) | AtMost(n: nat)

  datatype RangeRule = NoLess(bound: F64) | NoMore(bound: F64) | More(bound: F64) | Fewer(bound: F64)

  datatype ViolationKind =
    | Undeclared(element: string)
    | Missing(element: string)
    | TooFew(element: string, min: nat, found: nat)
    | TooMany(element: string, max: nat, found: nat)
    | NoAlternative(alternatives: seq<string>)
    | ManyAlternatives(taken: seq<string>)
    | AbstractType(typeName: string)
    | UnusableType(typeName: string, reason: SchemaError)
    | NestedTooDeep
    | NotEnumerated(value: string, allowed: seq<string>, total: nat)
    | WrongLength(value: string, len: nat, octets: bool, rule: LengthRule)
    | OutOfRange(value: string, range: RangeRule)
    | PatternMismatch(value: string, patterns: seq<string>)
    | NotLexical(value: string, primitive: string, expected: Expected)

  datatype Violation = Violation(path: string, kind: ViolationKind)

  // ---- Leaves --------------------------------------------------------------------------

  function HexDigits(text: string): nat {
    if text == [] then 0 else (if IsHexDigit(text[0]) then 1 else 0) + HexDigits(text[1..])
  }

  /** `value_length`: octets for hexBinary, characters otherwise. */
  function ValueLength(text: string, kind: Kind): nat {
    if kind.HexBinary? then HexDigits(text) / 2 else |text|
  }

  function ValueOf(p: Platform, text: string, kind: Kind): Value {
    Value(text, ValueLength(text, kind), p.parseFloat(text))
  }

  function When(holds: bool, path: string, kind: ViolationKind): seq<Violation> {
    if holds then [] else [Violation(path, kind)]
  }

  function Sample(allowed: seq<string>): seq<string> {
    if |allowed| <= 4 then allowed else allowed[..4]
  }

  function EnumerationViolations(e: Effective, text: string, path: string): seq<Violation> {
    if e.enumeration.None? then []
    else
      var allowed := e.enumeration.value;
      When(text in allowed, path, NotEnumerated(text, Sample(allowed), |allowed|))
  }

  predicate MeetsLength(len: nat, rule: LengthRule) {
    match rule
    case Exactly(n) => len == n
    case AtLeast(n) => n <= len
    case AtMost(n) => len <= n
  }

  function Exact(n: Option<nat>): Option<LengthRule> { if n.Some? then Some(Exactly(n.value)) else None }
  function Least(n: Option<nat>): Option<LengthRule> { if n.Some? then Some(AtLeast(n.value)) else None }
  function Most(n: Option<nat>): Option<LengthRule> { if n.Some? then Some(AtMost(n.value)) else None }

  function LengthViolation(v: Value, octets: bool, path: string, rule: Option<LengthRule>): seq<Violation> {
    if rule.None? then []
    else When(MeetsLength(v.length, rule.value), path, WrongLength(v.text, v.length, octets, rule.value))
  }

  function LengthViolations(e: Effective, v: Value, octets: bool, path: string): seq<Violation> {
    LengthViolation(v, octets, path, Exact(e.length))
    + (LengthViolation(v, octets, path, Least(e.minLength)) + LengthViolation(v, octets, path, Most(e.maxLength)))
  }

  function PatternViolations(p: Platform, groups: seq<seq<string>>, text: string, path: string): seq<Violation> {
    if groups == [] then []
    else When(MatchesAny(p, groups[0], text), path, PatternMismatch(text, groups[0])) + PatternViolations(p, groups[1..], text, path)
  }

  /** The comparisons as written, on doubles: NaN fails none of them. */
  predicate MeetsRange(number: F64, rule: RangeRule) {
    match rule
    case NoLess(min) => !Less(Denotes(number), Denotes(min))
    case NoMore(max) => !Less(Denotes(max), Denotes(number))
    case More(min) => !AtMostFloat(Denotes(number), Denotes(min))
    case Fewer(max) => !AtMostFloat(Denotes(max), Denotes(number))
  }

  /** `a <= b` on doubles. */
  predicate AtMostFloat(a: Extended, b: Extended) {
    Less(a, b) || (a == b && !a.NaN?)
  }

  function Low(b: Option<F64>): Option<RangeRule> { if b.Some? then Some(NoLess(b.value)) else None }
  function High(b: Option<F64>): Option<RangeRule> { if b.Some? then Some(NoMore(b.value)) else None }
  function Over(b: Option<F64>): Option<RangeRule> { if b.Some? then Some(More(b.value)) else None }
  function Under(b: Option<F64>): Option<RangeRule> { if b.Some? then Some(Fewer(b.value)) else None }

  function RangeViolation(number: F64, text: string, path: string, rule: Option<RangeRule>): seq<Violation> {
    if rule.None? then [] else When(MeetsRange(number, rule.value), path, OutOfRange(text, rule.value))
  }

  /** A bound says nothing to text that is no number. */
  function RangeViolations(e: Effective, text: string, number: Option<F64>, path: string): seq<Violation> {
    if number.None? then []
    else
      RangeViolation(number.value, text, path, Low(e.minInclusive))
      + (RangeViolation(number.value, text, path, High(e.maxInclusive))
      + (RangeViolation(number.value, text, path, Over(e.minExclusive))
      + RangeViolation(number.value, text, path, Under(e.maxExclusive))))
  }

  function FacetViolations(p: Platform, e: Effective, v: Value, octets: bool, path: string): seq<Violation> {
    EnumerationViolations(e, v.text, path)
    + (LengthViolations(e, v, octets, path)
    + (PatternViolations(p, e.patterns, v.text, path) + RangeViolations(e, v.text, v.number, path)))
  }

  /** What is wrong with a leaf. Text that is no value of its primitive is reported once. */
  function ValueViolations(p: Platform, s: Schema, text: string, t: string, path: string): seq<Violation> {
    var primitive := Reduce(s, t, MAX_SIMPLE_DEPTH);
    var kind := KindOf(primitive);
    var refusal := Refuses(p, kind, text);
    if refusal.Some? then [Violation(path, NotLexical(text, primitive, refusal.value))]
    else FacetViolations(p, EffectiveOf(s, t), ValueOf(p, text, kind), kind.HexBinary?, path)
  }

  // ---- Elements ------------------------------------------------------------------------

  function GetField(fields: seq<NamedField>, name: string): Option<Field> {
    if fields == [] then None else if fields[0].name == name then Some(fields[0].field) else GetField(fields[1..], name)
  }

  /** The nodes a field holds. */
  function Nodes(f: Field): seq<Node> {
    match f
    case One(n) => [n]
    case Many(ns) => ns
  }

  /** The nodes under a name: those of the first field that has it. */
  function Occurrences(fields: seq<NamedField>, name: string): seq<Node> {
    if fields == [] then []
    else if fields[0].name == name then Nodes(fields[0].field)
    else Occurrences(fields[1..], name)
  }

  lemma {:induction false} FieldHoldsOccurrences(fields: seq<NamedField>, name: string)
    ensures var f := GetField(fields, name);
            Occurrences(fields, name) == if f.Some? then Nodes(f.value) else []
  {
    if fields != [] { FieldHoldsOccurrences(fields[1..], name); }
  }

  /** How often an element occurs. */
  function Count(fields: seq<NamedField>, name: string): (found: nat)
    ensures found == |Occurrences(fields, name)|
  {
    FieldHoldsOccurrences(fields, name);
    match GetField(fields, name)
    case None => 0
    case Some(One(_)) => 1
    case Some(Many(ns)) => |ns|
  }

  function UndeclaredViolations(fields: seq<NamedField>, els: seq<ElementDecl>, path: string): seq<Violation> {
    if fields == [] then []
    else When(FindDecl(els, fields[0].name).Some?, path, Undeclared(fields[0].name)) + UndeclaredViolations(fields[1..], els, path)
  }

  /** `check_max`. */
  function MaxViolations(max: MaxOccurs, element: string, found: nat, path: string): seq<Violation> {
    if max.Bounded? then When(found <= max.n, path, TooMany(element, max.n, found)) else []
  }

  function OccurrenceViolations(decl: ElementDecl, found: nat, path: string): seq<Violation> {
    if found == 0 then When(decl.minOccurs == 0, path, Missing(decl.name))
    else When(decl.minOccurs <= found, path, TooFew(decl.name, decl.minOccurs, found)) + MaxViolations(decl.maxOccurs, decl.name, found, path)
  }

  function SequenceViolations(els: seq<ElementDecl>, fields: seq<NamedField>, path: string): seq<Violation> {
    if els == [] then []
    else OccurrenceViolations(els[0], Count(fields, els[0].name), path) + SequenceViolations(els[1..], fields, path)
  }

  /** Alternatives that are present. */
  function Taken(els: seq<ElementDecl>, fields: seq<NamedField>): seq<ElementDecl> {
    if els == [] then []
    else (if Count(fields, els[0].name) > 0 then [els[0]] else []) + Taken(els[1..], fields)
  }

  function Names(els: seq<ElementDecl>): seq<string> {
    seq(|els|, i requires 0 <= i < |els| => els[i].name)
  }

  function ChoiceViolations(els: seq<ElementDecl>, fields: seq<NamedField>, path: string): seq<Violation> {
    var taken := Taken(els, fields);
    if taken == [] then [Violation(path, NoAlternative(Names(els)))]
    else if |taken| > 1 then [Violation(path, ManyAlternatives(Names(taken)))]
    else
      var chosen := FindDecl(els, taken[0].name);
      MaxViolations(if chosen.Some? then chosen.value.maxOccurs else els[0].maxOccurs, taken[0].name, Count(fields, taken[0].name), path)
  }

  function GroupViolations(g: Group, fields: seq<NamedField>, path: string): seq<Violation> {
    match g.kind
    case Sequence => SequenceViolations(g.elements, fields, path)
    case Choice => ChoiceViolations(g.elements, fields, path)
  }

  function GroupsViolations(groups: seq<Group>, fields: seq<NamedField>, path: string): seq<Violation> {
    if groups == [] then []
    else GroupViolations(groups[0], fields, path) + GroupsViolations(groups[1..], fields, path)
  }

  function AbstractViolations(s: Schema, n: Node, t: string, path: string): seq<Violation>
    requires n.Complex?
  {
    if n.typeName.None? && t in s.complexTypes then When(!s.complexTypes[t].isAbstract, path, AbstractType(t)) else []
  }

  /** Everything wrong with a node, uncapped, in the order it is found. */
  function Violations(p: Platform, s: Schema, n: Node, t: string, path: string, depth: nat): seq<Violation>
    decreases n, 1
  {
    if depth > MAX_DEPTH then [Violation(path, NestedTooDeep)]
    else if n.Leaf? then ValueViolations(p, s, AsText(p, n.simple), t, path)
    else
      AbstractViolations(s, n, t, path) + BodyViolations(p, s, n, t, path, depth)
  }

  /** What the declarations of the element's own type say. */
  function BodyViolations(p: Platform, s: Schema, n: Node, t: string, path: string, depth: nat): seq<Violation>
    requires n.Complex?
    decreases n, 0
  {
    match GroupsOf(s, ActualOf(n, t))
    case Err(e) => [Violation(path, UnusableType(ActualOf(n, t), e))]
    case Ok(groups) =>
      var els := AllElements(groups);
      UndeclaredViolations(n.fields, els, path)
      + (GroupsViolations(groups, n.fields, path) + FieldsViolations(p, s, n.fields, els, path, depth + 1))
  }

  function FieldsViolations(p: Platform, s: Schema, fields: seq<NamedField>, els: seq<ElementDecl>, path: string, depth: nat): seq<Violation>
    decreases fields
  {
    if fields == [] then []
    else
      FieldViolations(p, s, fields[0].field, FindDecl(els, fields[0].name), path + "." + fields[0].name, depth)
      + FieldsViolations(p, s, fields[1..], els, path, depth)
  }

  /** Undeclared children are not looked into. */
  function FieldViolations(p: Platform, s: Schema, f: Field, decl: Option<ElementDecl>, path: string, depth: nat): seq<Violation>
    decreases f, 2
  {
    if decl.None? then []
    else
      match f
      case One(n) => Violations(p, s, n, decl.value.typeName, path, depth)
      case Many(ns) => ItemsViolations(p, s, ns, decl.value.typeName, path, 0, depth)
  }

  function ItemsViolations(p: Platform, s: Schema, ns: seq<Node>, t: string, path: string, from: nat, depth: nat): seq<Violation>
    decreases ns
  {
    if ns == [] then []
    else Violations(p, s, ns[0], t, path + "[" + Show(from) + "]", depth) + ItemsViolations(p, s, ns[1..], t, path, from + 1, depth)
  }

  /** What is wrong with a message, without the cap. */
  function AllViolations(p: Platform, s: Schema, m: Message): seq<Violation> {
    var g := GlobalType(s, m.name);
    Violations(p, s, m.body, if g.Some? then g.value else m.name, m.name, 0)
  }

  // ---- The capped report ---------------------------------------------------------------

  function Cap(vs: seq<Violation>): (r: seq<Violation>)
    ensures |r| <= MAX_VIOLATIONS
  {
    if |vs| <= MAX_VIOLATIONS then vs else vs[..MAX_VIOLATIONS]
  }

  lemma CapAppend(a: seq<Violation>, b: seq<Violation>)
    ensures Cap(Cap(a) + b) == Cap(a + b)
  {
  }

  lemma CapFull(a: seq<Violation>, b: seq<Violation>)
    requires |a| == MAX_VIOLATIONS
    ensures Cap(a + b) == a
  {
  }

  /** Noting `x` now and `rest` later is noting both. */
  lemma CapStep(before: seq<Violation>, x: seq<Violation>, after: seq<Violation>, rest: seq<Violation>)
    requires after == Cap(before + x)
    ensures Cap(after + rest) == Cap(before + (x + rest))
  {
    CapAppend(before + x, rest);
    assert before + x + rest == before + (x + rest);
  }

  lemma CapNothing(out: seq<Violation>)
    requires |out| <= MAX_VIOLATIONS
    ensures Cap(out + []) == out
  {
    assert out + [] == out;
  }

  /** The vector the checks push into. */
  class Report {
    var out: seq<Violation>

    constructor ()
      ensures out == []
    {
      out := [];
    }

    /** `note`. */
    method Note(path: string, kind: ViolationKind)
      requires |out| <= MAX_VIOLATIONS
      modifies this
      ensures out == Cap(old(out) + [Violation(path, kind)])
    {
      if |out| < MAX_VIOLATIONS { out := out + [Violation(path, kind)]; }
    }

    /** `note`, unless a condition holds. */
    method NoteUnless(holds: bool, path: string, kind: ViolationKind)
      requires |out| <= MAX_VIOLATIONS
      modifies this
      ensures out == Cap(old(out) + When(holds, path, kind))
    {
      if !holds { Note(path, kind); } else { assert out + [] == out; }
    }

    /** `check_max`. */
    method CheckMax(max: MaxOccurs, element: string, found: nat, path: string)
      requires |out| <= MAX_VIOLATIONS
      modifies this
      ensures out == Cap(old(out) + MaxViolations(max, element, found, path))
    {
      if max.Bounded? { NoteUnless(found <= max.n, path, TooMany(element, max.n, found)); }
      else { assert out + [] == out; }
    }

    /** One declaration of a sequence. */
    method CheckOccurrence(decl: ElementDecl, found: nat, path: string)
      requires |out| <= MAX_VIOLATIONS
      modifies this
      ensures out == Cap(old(out) + OccurrenceViolations(decl, found, path))
    {
      if found == 0 {
        NoteUnless(decl.minOccurs == 0, path, Missing(decl.name));
      } else {
        ghost var start := out;
        NoteUnless(decl.minOccurs <= found, path, TooFew(decl.name, decl.minOccurs, found));
        CapStep(start, When(decl.minOccurs <= found, path, TooFew(decl.name, decl.minOccurs, found)), out,
                MaxViolations(decl.maxOccurs, decl.name, found, path));
        CheckMax(decl.maxOccurs, decl.name, found, path);
      }
    }

    /** The sequence arm of the group loop. */
    method CheckSequence(els: seq<ElementDecl>, fields: seq<NamedField>, path: string)
      requires |out| <= MAX_VIOLATIONS
      modifies this
      ensures out == Cap(old(out) + SequenceViolations(els, fields, path))
    {
      assert els[0..] == els;
      for i := 0 to |els|
        invariant |out| <= MAX_VIOLATIONS
        invariant Cap(out + SequenceViolations(els[i..], fields, path)) == Cap(old(out) + SequenceViolations(els, fields, path))
      {
        assert els[i..][1..] == els[i + 1..];
        ghost var start := out;
        var found := Count(fields, els[i].name);
        CheckOccurrence(els[i], found, path);
        CapStep(start, OccurrenceViolations(els[i], found, path), out, SequenceViolations(els[i + 1..], fields, path));
      }
      CapNothing(out);
    }

    /** The choice arm of the group loop. */
    method CheckChoice(els: seq<ElementDecl>, fields: seq<NamedField>, path: string)
      requires |out| <= MAX_VIOLATIONS
      modifies this
      ensures out == Cap(old(out) + ChoiceViolations(els, fields, path))
    {
      var taken := Taken(els, fields);
      if |taken| == 1 {
        TakenIsThere(els, fields);
        var chosen := FindDecl(els, taken[0].name);
        assert chosen.Some?;  // so the fallback to the first declaration is never taken
        CheckMax(chosen.value.maxOccurs, taken[0].name, Count(fields, taken[0].name), path);
      } else if |taken| == 0 {
        Note(path, NoAlternative(Names(els)));
      } else {
        Note(path, ManyAlternatives(Names(taken)));
      }
    }

    method CheckGroups(groups: seq<Group>, fields: seq<NamedField>, path: string)
      requires |out| <= MAX_VIOLATIONS
      modifies this
      ensures out == Cap(old(out) + GroupsViolations(groups, fields, path))
    {
      assert groups[0..] == groups;
      for i := 0 to |groups|
        invariant |out| <= MAX_VIOLATIONS
        invariant Cap(out + GroupsViolations(groups[i..], fields, path)) == Cap(old(out) + GroupsViolations(groups, fields, path))
      {
        assert groups[i..][1..] == groups[i + 1..];
        ghost var start := out;
        match groups[i].kind {
          case Sequence => CheckSequence(groups[i].elements, fields, path);
          case Choice => CheckChoice(groups[i].elements, fields, path);
        }
        CapStep(start, GroupViolations(groups[i], fields, path), out, GroupsViolations(groups[i + 1..], fields, path));
      }
      CapNothing(out);
    }

    method CheckUndeclared(fields: seq<NamedField>, els: seq<ElementDecl>, path: string)
      requires |out| <= MAX_VIOLATIONS
      modifies this
      ensures out == Cap(old(out) + UndeclaredViolations(fields, els, path))
    {
      assert fields[0..] == fields;
      for i := 0 to |fields|
        invariant |out| <= MAX_VIOLATIONS
        invariant Cap(out + UndeclaredViolations(fields[i..], els, path)) == Cap(old(out) + UndeclaredViolations(fields, els, path))
      {
        assert fields[i..][1..] == fields[i + 1..];
        ghost var start := out;
        NoteUnless(FindDecl(els, fields[i].name).Some?, path, Undeclared(fields[i].name));
        CapStep(start, When(FindDecl(els, fields[i].name).Some?, path, Undeclared(fields[i].name)), out,
                UndeclaredViolations(fields[i + 1..], els, path));
      }
      CapNothing(out);
    }

    method CheckPatterns(p: Platform, groups: seq<seq<string>>, text: string, path: string)
      requires |out| <= MAX_VIOLATIONS
      modifies this
      ensures out == Cap(old(out) + PatternViolations(p, groups, text, path))
    {
      assert groups[0..] == groups;
      for i := 0 to |groups|
        invariant |out| <= MAX_VIOLATIONS
        invariant Cap(out + PatternViolations(p, groups[i..], text, path)) == Cap(old(out) + PatternViolations(p, groups, text, path))
      {
        assert groups[i..][1..] == groups[i + 1..];
        ghost var start := out;
        NoteUnless(MatchesAny(p, groups[i], text), path, PatternMismatch(text, groups[i]));
        CapStep(start, When(MatchesAny(p, groups[i], text), path, PatternMismatch(text, groups[i])), out,
                PatternViolations(p, groups[i + 1..], text, path));
      }
      CapNothing(out);
    }

    /** One length facet, when the type has it. */
    method CheckLength(v: Value, octets: bool, path: string, rule: Option<LengthRule>)
      requires |out| <= MAX_VIOLATIONS
      modifies this
      ensures out == Cap(old(out) + LengthViolation(v, octets, path, rule))
    {
      if rule.Some? { NoteUnless(MeetsLength(v.length, rule.value), path, WrongLength(v.text, v.length, octets, rule.value)); }
      else { CapNothing(out); }
    }

    method CheckLengths(e: Effective, v: Value, octets: bool, path: string)
      requires |out| <= MAX_VIOLATIONS
      modifies this
      ensures out == Cap(old(out) + LengthViolations(e, v, octets, path))
    {
      ghost var a, b, c := LengthViolation(v, octets, path, Exact(e.length)),
        LengthViolation(v, octets, path, Least(e.minLength)), LengthViolation(v, octets, path, Most(e.maxLength));
      ghost var start := out;
      CheckLength(v, octets, path, Exact(e.length));
      CapStep(start, a, out, b + c);
      start := out;
      CheckLength(v, octets, path, Least(e.minLength));
      CapStep(start, b, out, c);
      CheckLength(v, octets, path, Most(e.maxLength));
    }

    /** One bound, when the type has it. */
    method CheckBound(number: F64, text: string, path: string, rule: Option<RangeRule>)
      requires |out| <= MAX_VIOLATIONS
      modifies this
      ensures out == Cap(old(out) + RangeViolation(number, text, path, rule))
    {
      if rule.Some? { NoteUnless(MeetsRange(number, rule.value), path, OutOfRange(text, rule.value)); }
      else { CapNothing(out); }
    }

    method CheckRange(p: Platform, e: Effective, text: string, path: string)
      requires |out| <= MAX_VIOLATIONS
      modifies this
      ensures out == Cap(old(out) + RangeViolations(e, text, p.parseFloat(text), path))
    {
      var bounded := e.minInclusive.Some? || e.maxInclusive.Some? || e.minExclusive.Some? || e.maxExclusive.Some?;
      CapNothing(out);
      if !bounded { return; }
      var parsed := p.parseFloat(text);
      if parsed.None? { return; }
      var number := parsed.value;
      ghost var a, b, c, d := RangeViolation(number, text, path, Low(e.minInclusive)), RangeViolation(number, text, path, High(e.maxInclusive)),
        RangeViolation(number, text, path, Over(e.minExclusive)), RangeViolation(number, text, path, Under(e.maxExclusive));
      ghost var start := out;
      CheckBound(number, text, path, Low(e.minInclusive));
      CapStep(start, a, out, b + (c + d));
      start := out;
      CheckBound(number, text, path, High(e.maxInclusive));
      CapStep(start, b, out, c + d);
      start := out;
      CheckBound(number, text, path, Over(e.minExclusive));
      CapStep(start, c, out, d);
      CheckBound(number, text, path, Under(e.maxExclusive));
    }

    /** `check_value`. */
    method CheckValue(p: Platform, s: Schema, text: string, t: string, path: string)
      requires |out| <= MAX_VIOLATIONS
      modifies this
      ensures out == Cap(old(out) + ValueViolations(p, s, text, t, path))
    {
      var primitive := PrimitiveOf(s, t);
      var kind := KindOf(primitive);
      var refusal := Refuses(p, kind, text);
      if refusal.Some? {
        Note(path, NotLexical(text, primitive, refusal.value));
        return;
      }
      var e := EffectiveFacets(s, t);
      var v := ValueOf(p, text, kind);
      ghost var a, b, c, d := EnumerationViolations(e, text, path), LengthViolations(e, v, kind.HexBinary?, path),
        PatternViolations(p, e.patterns, text, path), RangeViolations(e, text, v.number, path);
      ghost var start := out;
      if e.enumeration.Some? {
        var allowed := e.enumeration.value;
        NoteUnless(text in allowed, path, NotEnumerated(text, Sample(allowed), |allowed|));
      } else {
        CapNothing(out);
      }
      CapStep(start, a, out, b + (c + d));
      start := out;
      CheckLengths(e, v, kind.HexBinary?, path);
      CapStep(start, b, out, c + d);
      start := out;
      CheckPatterns(p, e.patterns, text, path);
      CapStep(start, c, out, d);
      CheckRange(p, e, text, path);
    }

    /** `check`: a full report is left as it is, whatever the walk would find. */
    method Check(p: Platform, s: Schema, n: Node, t: string, path: string, depth: nat)
      requires |out| <= MAX_VIOLATIONS
      modifies this
      ensures out == Cap(old(out) + Violations(p, s, n, t, path, depth))
      decreases n, 1
    {
      ghost var all := Violations(p, s, n, t, path, depth);
      if |out| >= MAX_VIOLATIONS {
        CapFull(out, all);
        return;
      }
      if depth > MAX_DEPTH {
        Note(path, NestedTooDeep);
        return;
      }
      if n.Leaf? {
        CheckValue(p, s, AsText(p, n.simple), t, path);
        return;
      }
      var actual := ActualOf(n, t);
      ghost var start := out;
      if n.typeName.None? && actual in s.complexTypes {
        NoteUnless(!s.complexTypes[actual].isAbstract, path, AbstractType(actual));
      } else {
        CapNothing(out);
      }
      CapStep(start, AbstractViolations(s, n, t, path), out, BodyViolations(p, s, n, t, path, depth));
      CheckBody(p, s, n, t, path, depth);
    }

    /** The rest of `check`, by the declarations of the element's own type. */
    method CheckBody(p: Platform, s: Schema, n: Node, t: string, path: string, depth: nat)
      requires n.Complex? && |out| <= MAX_VIOLATIONS
      modifies this
      ensures out == Cap(old(out) + BodyViolations(p, s, n, t, path, depth))
      decreases n, 0
    {
      var actual := ActualOf(n, t);
      var groups := GroupsOf(s, actual);
      if groups.Err? {
        Note(path, UnusableType(actual, groups.error));
        return;
      }
      var els := AllElements(groups.value);
      ghost var a, b, c := UndeclaredViolations(n.fields, els, path), GroupsViolations(groups.value, n.fields, path),
        FieldsViolations(p, s, n.fields, els, path, depth + 1);
      ghost var start := out;
      CheckUndeclared(n.fields, els, path);
      CapStep(start, a, out, b + c);
      start := out;
      CheckGroups(groups.value, n.fields, path);
      CapStep(start, b, out, c);
      CheckFields(p, s, n.fields, els, path, depth + 1);
    }

    /** The loop over the children. */
    method CheckFields(p: Platform, s: Schema, fields: seq<NamedField>, els: seq<ElementDecl>, path: string, depth: nat)
      requires |out| <= MAX_VIOLATIONS
      modifies this
      ensures out == Cap(old(out) + FieldsViolations(p, s, fields, els, path, depth))
      decreases fields
    {
      assert fields[0..] == fields;
      for i := 0 to |fields|
        invariant |out| <= MAX_VIOLATIONS
        invariant Cap(out + FieldsViolations(p, s, fields[i..], els, path, depth)) == Cap(old(out) + FieldsViolations(p, s, fields, els, path, depth))
      {
        assert fields[i..][1..] == fields[i + 1..];
        var decl := FindDecl(els, fields[i].name);
        var childPath := path + "." + fields[i].name;
        ghost var start := out;
        if decl.Some? {
          match fields[i].field {
            case One(child) => Check(p, s, child, decl.value.typeName, childPath, depth);
            case Many(items) => CheckItems(p, s, items, decl.value.typeName, childPath, depth);
          }
        } else {
          CapNothing(out);
        }
        CapStep(start, FieldViolations(p, s, fields[i].field, decl, childPath, depth), out,
                FieldsViolations(p, s, fields[i + 1..], els, path, depth));
      }
      CapNothing(out);
    }

    /** The loop over the occurrences of one child. */
    method CheckItems(p: Platform, s: Schema, ns: seq<Node>, t: string, path: string, depth: nat)
      requires |out| <= MAX_VIOLATIONS
      modifies this
      ensures out == Cap(old(out) + ItemsViolations(p, s, ns, t, path, 0, depth))
      decreases ns
    {
      assert ns[0..] == ns;
      for i := 0 to |ns|
        invariant |out| <= MAX_VIOLATIONS
        invariant Cap(out + ItemsViolations(p, s, ns[i..], t, path, i, depth)) == Cap(old(out) + ItemsViolations(p, s, ns, t, path, 0, depth))
      {
        assert ns[i..][1..] == ns[i + 1..];
        ghost var start := out;
        Check(p, s, ns[i], t, path + "[" + Show(i) + "]", depth);
        CapStep(start, Violations(p, s, ns[i], t, path + "[" + Show(i) + "]", depth), out, ItemsViolations(p, s, ns[i + 1..], t, path, i + 1, depth));
      }
      CapNothing(out);
    }
  }

  /** `validate`: the first 32 of everything that is wrong, and nothing exactly when the
      message conforms. */
  method Validate(p: Platform, s: Schema, m: Message) returns (out: seq<Violation>)
    ensures out == Cap(AllViolations(p, s, m))
    ensures out == [] <==> MessageConforms(p, s, m)
  {
    var report := new Report();
    var g := GlobalType(s, m.name);
    report.Check(p, s, m.body, if g.Some? then g.value else m.name, m.name, 0);
    out := report.out;
    ConformsExactly(p, s, m.body, if g.Some? then g.value else m.name, m.name, 0);
    assert [] + AllViolations(p, s, m) == AllViolations(p, s, m);
  }

  lemma {:induction false} TakenIsThere(els: seq<ElementDecl>, fields: seq<NamedField>)
    ensures forall i :: 0 <= i < |Taken(els, fields)| ==> Taken(els, fields)[i] in els
    ensures Taken(els, fields) != [] ==> els != []
  {
    if els != [] { TakenIsThere(els[1..], fields); }
  }

  // ---- Conformance ---------------------------------------------------------------------

  /** A value of its primitive that the facets of its type let through. */
  predicate LeafConforms(p: Platform, s: Schema, text: string, t: string) {
    var kind := KindOf(Reduce(s, t, MAX_SIMPLE_DEPTH));
    Refuses(p, kind, text).None? && PassesMerged(p, EffectiveOf(s, t), ValueOf(p, text, kind))
  }

  predicate Within(max: MaxOccurs, found: nat) {
    max.Bounded? ==> found <= max.n
  }

  /** Every member of a sequence occurs as often as it may. */
  predicate SequenceConforms(els: seq<ElementDecl>, fields: seq<NamedField>) {
    forall i :: 0 <= i < |els| ==>
      var found := |Occurrences(fields, els[i].name)|;
      els[i].minOccurs <= found && Within(els[i].maxOccurs, found)
  }

  /** `i` is the only member of the choice that is there. */
  predicate OnlyTaken(els: seq<ElementDecl>, fields: seq<NamedField>, i: nat) {
    && i < |els|
    && Occurrences(fields, els[i].name) != []
    && forall j :: 0 <= j < |els| && Occurrences(fields, els[j].name) != [] ==> j == i
  }

  /** Exactly one member of a choice is there, no more often than its declaration
      allows. */
  predicate ChoiceConforms(els: seq<ElementDecl>, fields: seq<NamedField>) {
    exists i :: 0 <= i < |els| && OnlyTaken(els, fields, i) && Within(els[i].maxOccurs, |Occurrences(fields, els[i].name)|)
  }

  predicate GroupConforms(g: Group, fields: seq<NamedField>) {
    match g.kind
    case Sequence => SequenceConforms(g.elements, fields)
    case Choice => ChoiceConforms(g.elements, fields)
  }

  /** What one element has to satisfy, its children aside. */
  predicate LevelConforms(s: Schema, n: Node, t: string)
    requires n.Complex?
  {
    var groups := GroupsOf(s, ActualOf(n, t));
    && (n.typeName.None? && t in s.complexTypes ==> !s.complexTypes[t].isAbstract)
    && groups.Ok?
    && (forall i :: 0 <= i < |n.fields| ==> FindDecl(AllElements(groups.value), n.fields[i].name).Some?)
    && (forall i :: 0 <= i < |groups.value| ==> GroupConforms(groups.value[i], n.fields))
  }

  /** A node that agrees with its type, all the way down. */
  predicate Conforms(p: Platform, s: Schema, n: Node, t: string, depth: nat)
    decreases n, 1
  {
    && depth <= MAX_DEPTH
    && if n.Leaf? then LeafConforms(p, s, AsText(p, n.simple), t)
       else
         && LevelConforms(s, n, t)
         && var els := AllElements(GroupsOf(s, ActualOf(n, t)).value);
            forall i :: 0 <= i < |n.fields| ==>
              FieldConforms(p, s, n.fields[i].field, ChildType(els, n.fields[i].name), depth + 1)
  }

  predicate FieldConforms(p: Platform, s: Schema, f: Field, t: string, depth: nat)
    decreases f, 2
  {
    match f
    case One(n) => Conforms(p, s, n, t, depth)
    case Many(ns) => forall i :: 0 <= i < |ns| ==> Conforms(p, s, ns[i], t, depth)
  }

  predicate MessageConforms(p: Platform, s: Schema, m: Message) {
    var g := GlobalType(s, m.name);
    Conforms(p, s, m.body, if g.Some? then g.value else m.name, 0)
  }

  // ---- No violation is conformance -----------------------------------------------------

  lemma {:induction false} PatternsExact(p: Platform, groups: seq<seq<string>>, text: string, path: string)
    ensures PatternViolations(p, groups, text, path) == [] <==> forall i :: 0 <= i < |groups| ==> MatchesAny(p, groups[i], text)
  {
    if groups != [] {
      PatternsExact(p, groups[1..], text, path);
      assert forall i :: 0 < i < |groups| ==> groups[i] == groups[1..][i - 1];
    }
  }

  lemma FloatOrder(a: Extended, b: Extended)
    ensures !AtMostFloat(a, b) <==> a.NaN? || b.NaN? || Less(b, a)
  {
  }

  lemma RangeExact(e: Effective, v: Value, path: string)
    ensures RangeViolations(e, v.text, v.number, path) == [] <==>
            NotBelow(v, e.minInclusive) && NotAbove(v, e.maxInclusive) && Above(v, e.minExclusive) && Below(v, e.maxExclusive)
  {
    if v.number.Some? {
      if e.minExclusive.Some? { FloatOrder(Denotes(v.number.value), Denotes(e.minExclusive.value)); }
      if e.maxExclusive.Some? { FloatOrder(Denotes(e.maxExclusive.value), Denotes(v.number.value)); }
    }
  }

  lemma ValueExact(p: Platform, s: Schema, text: string, t: string, path: string)
    ensures ValueViolations(p, s, text, t, path) == [] <==> LeafConforms(p, s, text, t)
  {
    var kind := KindOf(Reduce(s, t, MAX_SIMPLE_DEPTH));
    var e, v := EffectiveOf(s, t), ValueOf(p, text, kind);
    FacetsExact(p, e, v, kind.HexBinary?, path);
  }

  lemma FacetsExact(p: Platform, e: Effective, v: Value, octets: bool, path: string)
    ensures FacetViolations(p, e, v, octets, path) == [] <==> PassesMerged(p, e, v)
  {
    PatternsExact(p, e.patterns, v.text, path);
    RangeExact(e, v, path);
  }

  lemma {:induction false} UndeclaredExact(fields: seq<NamedField>, els: seq<ElementDecl>, path: string)
    ensures UndeclaredViolations(fields, els, path) == [] <==> forall i :: 0 <= i < |fields| ==> FindDecl(els, fields[i].name).Some?
  {
    if fields != [] {
      UndeclaredExact(fields[1..], els, path);
      assert forall i :: 0 < i < |fields| ==> fields[i] == fields[1..][i - 1];
    }
  }

  lemma {:induction false} SequenceExact(els: seq<ElementDecl>, fields: seq<NamedField>, path: string)
    ensures SequenceViolations(els, fields, path) == [] <==> SequenceConforms(els, fields)
  {
    if els != [] {
      SequenceExact(els[1..], fields, path);
      assert forall i :: 0 < i < |els| ==> els[i] == els[1..][i - 1];
      assert SequenceConforms(els, fields) <==>
             els[0].minOccurs <= Count(fields, els[0].name) && Within(els[0].maxOccurs, Count(fields, els[0].name)) && SequenceConforms(els[1..], fields);
    }
  }

  lemma {:induction false} NoneTaken(els: seq<ElementDecl>, fields: seq<NamedField>)
    ensures Taken(els, fields) == [] <==> forall j :: 0 <= j < |els| ==> Count(fields, els[j].name) == 0
  {
    if els != [] {
      NoneTaken(els[1..], fields);
      assert forall i :: 0 < i < |els| ==> els[i] == els[1..][i - 1];
    }
  }

  lemma {:induction false} OneTaken(els: seq<ElementDecl>, fields: seq<NamedField>, i: nat)
    requires OnlyTaken(els, fields, i)
    ensures Taken(els, fields) == [els[i]]
  {
    assert forall i :: 0 < i < |els| ==> els[i] == els[1..][i - 1];
    if i == 0 { NoneTaken(els[1..], fields); } else { OneTaken(els[1..], fields, i - 1); }
  }

  lemma {:induction false} TakenOne(els: seq<ElementDecl>, fields: seq<NamedField>) returns (i: nat)
    requires |Taken(els, fields)| == 1
    ensures OnlyTaken(els, fields, i)
  {
    assert forall i :: 0 < i < |els| ==> els[i] == els[1..][i - 1];
    if Count(fields, els[0].name) > 0 {
      NoneTaken(els[1..], fields);
      i := 0;
    } else {
      i := TakenOne(els[1..], fields);
      i := i + 1;
    }
  }

  lemma ChosenIsOnly(els: seq<ElementDecl>, fields: seq<NamedField>, i: nat)
    requires OnlyTaken(els, fields, i)
    ensures FindDecl(els, els[i].name) == Some(els[i])
  {
    var d := FindDecl(els, els[i].name);
    assert d.Some?;
    var k :| 0 <= k < |els| && els[k] == d.value;
    assert Count(fields, els[k].name) > 0;
  }

  lemma ChoiceExact(els: seq<ElementDecl>, fields: seq<NamedField>, path: string)
    ensures ChoiceViolations(els, fields, path) == [] <==> ChoiceConforms(els, fields)
  {
    if |Taken(els, fields)| == 1 {
      var i := TakenOne(els, fields);
      OneTaken(els, fields, i);
      ChosenIsOnly(els, fields, i);
    } else if i :| 0 <= i < |els| && OnlyTaken(els, fields, i) {
      OneTaken(els, fields, i);
    }
  }

  lemma {:induction false} GroupsConformExactly(groups: seq<Group>, fields: seq<NamedField>, path: string)
    ensures GroupsViolations(groups, fields, path) == [] <==> forall i :: 0 <= i < |groups| ==> GroupConforms(groups[i], fields)
  {
    if groups != [] {
      GroupsConformExactly(groups[1..], fields, path);
      if groups[0].kind.Sequence? { SequenceExact(groups[0].elements, fields, path); } else { ChoiceExact(groups[0].elements, fields, path); }
      assert forall i :: 0 < i < |groups| ==> groups[i] == groups[1..][i - 1];
    }
  }

  /** The walk finds nothing exactly when the node conforms, at every depth. */
  lemma {:induction false} ConformsExactly(p: Platform, s: Schema, n: Node, t: string, path: string, depth: nat)
    ensures Violations(p, s, n, t, path, depth) == [] <==> Conforms(p, s, n, t, depth)
    decreases n, 1
  {
    if depth > MAX_DEPTH { return; }
    if n.Leaf? {
      ValueExact(p, s, AsText(p, n.simple), t, path);
      return;
    }
    LevelExact(s, n, t, path);
    if LevelConforms(s, n, t) {
      FieldsConformExactly(p, s, n.fields, AllElements(GroupsOf(s, ActualOf(n, t)).value), path, depth + 1);
    }
  }

  /** One element, its children aside. */
  lemma LevelExact(s: Schema, n: Node, t: string, path: string)
    requires n.Complex?
    ensures var groups := GroupsOf(s, ActualOf(n, t));
            LevelConforms(s, n, t) <==>
              && AbstractViolations(s, n, t, path) == [] && groups.Ok?
              && UndeclaredViolations(n.fields, AllElements(groups.value), path) == []
              && GroupsViolations(groups.value, n.fields, path) == []
  {
    var groups := GroupsOf(s, ActualOf(n, t));
    if groups.Ok? {
      UndeclaredExact(n.fields, AllElements(groups.value), path);
      GroupsConformExactly(groups.value, n.fields, path);
    }
  }

  lemma {:induction false} FieldsConformExactly(p: Platform, s: Schema, fields: seq<NamedField>, els: seq<ElementDecl>, path: string, depth: nat)
    requires forall i :: 0 <= i < |fields| ==> FindDecl(els, fields[i].name).Some?
    ensures FieldsViolations(p, s, fields, els, path, depth) == [] <==>
            forall i :: 0 <= i < |fields| ==> FieldConforms(p, s, fields[i].field, ChildType(els, fields[i].name), depth)
    decreases fields
  {
    if fields != [] {
      assert forall i :: 0 < i < |fields| ==> fields[i] == fields[1..][i - 1];
      FieldsConformExactly(p, s, fields[1..], els, path, depth);
      FieldConformsExactly(p, s, fields[0].field, FindDecl(els, fields[0].name).value, path + "." + fields[0].name, depth);
    }
  }

  lemma {:induction false} FieldConformsExactly(p: Platform, s: Schema, f: Field, decl: ElementDecl, path: string, depth: nat)
    ensures FieldViolations(p, s, f, Some(decl), path, depth) == [] <==> FieldConforms(p, s, f, decl.typeName, depth)
    decreases f, 2
  {
    match f
    case One(n) => ConformsExactly(p, s, n, decl.typeName, path, depth);
    case Many(ns) => ItemsConformExactly(p, s, ns, decl.typeName, path, 0, depth);
  }

  lemma {:induction false} ItemsConformExactly(p: Platform, s: Schema, ns: seq<Node>, t: string, path: string, from: nat, depth: nat)
    ensures ItemsViolations(p, s, ns, t, path, from, depth) == [] <==> forall i :: 0 <= i < |ns| ==> Conforms(p, s, ns[i], t, depth)
    decreases ns
  {
    if ns != [] {
      ConformsExactly(p, s, ns[0], t, path + "[" + Show(from) + "]", depth);
      ItemsConformExactly(p, s, ns[1..], t, path, from + 1, depth);
      AllConform(p, s, ns, t, depth);
    }
  }

  lemma AllConform(p: Platform, s: Schema, ns: seq<Node>, t: string, depth: nat)
    requires ns != []
    ensures (forall i :: 0 <= i < |ns| ==> Conforms(p, s, ns[i], t, depth)) <==>
            Conforms(p, s, ns[0], t, depth) && forall i :: 0 <= i < |ns[1..]| ==> Conforms(p, s, ns[1..][i], t, depth)
  {
    assert forall i :: 0 < i < |ns| ==> ns[i] == ns[1..][i - 1];
  }
}
