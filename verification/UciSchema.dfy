/** The compiled schema and how its chains resolve (crates/oa-gateway-uci/src/schema.rs,
    crates/oa-gateway-uci/src/xsd/references.rs). */
module UciSchema {
  import opened Wrappers
  import opened Primitive

  datatype MaxOccurs = Bounded(n: nat) | Unbounded

  predicate IsArray(m: MaxOccurs) {
    m.Unbounded? || m.n > 1
  }

  datatype ElementDecl = ElementDecl(name: string, typeName: string, minOccurs: nat, maxOccurs: MaxOccurs)

  datatype GroupKind = Sequence | Choice

  datatype Group = Group(kind: GroupKind, elements: seq<ElementDecl>)

  datatype ComplexContent = Groups(groups: seq<Group>) | Extension(base: string, extra: seq<Group>)

  datatype ComplexType = ComplexType(isAbstract: bool, content: ComplexContent)

  /** Constraints one restriction adds. An empty enumeration or pattern list adds none. */
  datatype Facets = Facets(
    enumeration: seq<string>,
    patterns: seq<string>,
    length: Option<nat>,
    minLength: Option<nat>,
    maxLength: Option<nat>,
    minInclusive: Option<F64>,
    maxInclusive: Option<F64>,
    minExclusive: Option<F64>,
    maxExclusive: Option<F64>)

  datatype SimpleType = SimpleType(base: string, facets: Facets)

  datatype Schema = Schema(
    globalElements: map<string, string>,
    complexTypes: map<string, ComplexType>,
    simpleTypes: map<string, SimpleType>)

  datatype SchemaError = UnknownType(name: string) | CyclicChain(chain: seq<string>)

  const MAX_SIMPLE_DEPTH: nat := 16

  predicate IsPrimitiveName(t: string) {
    "xs:" <= t
  }

  predicate IsComplex(s: Schema, t: string) {
    t in s.complexTypes
  }

  predicate IsSimple(s: Schema, t: string) {
    IsPrimitiveName(t) || t in s.simpleTypes
  }

  function GlobalType(s: Schema, name: string): Option<string> {
    if name in s.globalElements then Some(s.globalElements[name]) else None
  }

  // ---- Extension chains ----------------------------------------------------------------

  /** `groups_chain`: the names on the way down are kept, so a cycle is named, not followed. */
  function GroupsChain(s: Schema, t: string, chain: seq<string>): (r: Result<seq<Group>, SchemaError>)
    decreases s.complexTypes.Keys - set n | n in chain
  {
    if t in chain then Err(CyclicChain(chain + [t]))
    else if t !in s.complexTypes then Err(UnknownType(t))
    else
      match s.complexTypes[t].content
      case Groups(groups) => Ok(groups)
      case Extension(base, extra) =>
        assert t in s.complexTypes.Keys - (set n | n in chain);
        assert t !in s.complexTypes.Keys - (set n | n in chain + [t]);
        match GroupsChain(s, base, chain + [t])
        case Err(e) => Err(e)
        case Ok(groups) => Ok(groups + extra)
  }

  /** `groups`: the walk with nothing behind it yet. */
  function GroupsOf(s: Schema, t: string): Result<seq<Group>, SchemaError> {
    GroupsChain(s, t, [])
  }

  function AllElements(groups: seq<Group>): seq<ElementDecl> {
    if groups == [] then [] else groups[0].elements + AllElements(groups[1..])
  }

  /** `flatten`. */
  function Flatten(s: Schema, t: string): Result<seq<ElementDecl>, SchemaError> {
    match GroupsOf(s, t)
    case Ok(groups) => Ok(AllElements(groups))
    case Err(e) => Err(e)
  }

  /** `groups_chain` as it runs, pushing onto the caller's vector and popping on the way back. A
      walk that succeeds leaves the vector as it was; one that finds a cycle leaves it there. */
  method WalkChain(s: Schema, t: string, before: seq<string>) returns (r: Result<seq<Group>, SchemaError>, chain: seq<string>)
    ensures r == GroupsChain(s, t, before)
    ensures r.Ok? ==> chain == before
    ensures r.Err? && r.error.CyclicChain? ==> chain == r.error.chain
    decreases s.complexTypes.Keys - set n | n in before
  {
    chain := before;
    if t in chain {
      chain := chain + [t];
      return Err(CyclicChain(chain)), chain;
    }
    if t !in s.complexTypes { return Err(UnknownType(t)), chain; }
    match s.complexTypes[t].content {
      case Groups(groups) => return Ok(groups), chain;
      case Extension(base, extra) =>
        assert t in s.complexTypes.Keys - (set n | n in chain);
        assert t !in s.complexTypes.Keys - (set n | n in chain + [t]);
        chain := chain + [t];
        r, chain := WalkChain(s, base, chain);
        if r.Err? { return; }
        chain := chain[..|chain| - 1];
        assert chain == before;
        r := Ok(r.value + extra);
    }
  }

  // What an extension chain is, said without the walk.

  predicate Extends(s: Schema, t: string, base: string) {
    t in s.complexTypes && s.complexTypes[t].content.Extension? && s.complexTypes[t].content.base == base
  }

  /** Each name extends the next. */
  predicate IsChain(s: Schema, p: seq<string>) {
    p != [] && forall i :: 0 <= i < |p| - 1 ==> Extends(s, p[i], p[i + 1])
  }

  predicate IsPlain(s: Schema, t: string) {
    t in s.complexTypes && s.complexTypes[t].content.Groups?
  }

  /** Nothing to follow: a plain type, or no complex type at all. */
  predicate Ends(s: Schema, t: string) {
    IsPlain(s, t) || !IsComplex(s, t)
  }

  /** A chain from `t` down to `end`. */
  ghost predicate Reaches(s: Schema, t: string, p: seq<string>, end: string) {
    IsChain(s, p) && p[0] == t && p[|p| - 1] == end
  }

  /** The last name on `p` already stands earlier on it. */
  predicate Revisits(p: seq<string>) {
    p != [] && p[|p| - 1] in p[..|p| - 1]
  }

  /** Groups along a chain that ends in a plain type: the base's own, then every extension's
      additions on the way back up. */
  function GroupsAlong(s: Schema, p: seq<string>): seq<Group>
    requires IsChain(s, p) && IsPlain(s, p[|p| - 1])
  {
    if |p| == 1 then s.complexTypes[p[0]].content.groups
    else
      assert Extends(s, p[0], p[1]);
      assert IsChain(s, p[1..]) by { assert forall i :: 0 <= i < |p[1..]| ==> p[1..][i] == p[i + 1]; }
      GroupsAlong(s, p[1..]) + s.complexTypes[p[0]].content.extra
  }

  lemma ChainTail(s: Schema, p: seq<string>)
    requires IsChain(s, p) && |p| > 1
    ensures IsChain(s, p[1..]) && p[1..][|p| - 2] == p[|p| - 1] && Extends(s, p[0], p[1])
  {
    assert forall i :: 0 <= i < |p[1..]| ==> p[1..][i] == p[i + 1];
  }

  lemma ChainCons(s: Schema, t: string, p: seq<string>)
    requires IsChain(s, p) && Extends(s, t, p[0])
    ensures IsChain(s, [t] + p) && ([t] + p)[|p|] == p[|p| - 1]
  {
    var q := [t] + p;
    assert forall i :: 0 < i < |q| ==> q[i] == p[i - 1];
  }

  /** The walk, from anywhere: it ends where a chain ends, and that is all it can do. */
  lemma {:induction false} WalkEnds(s: Schema, t: string, chain: seq<string>) returns (p: seq<string>)
    ensures IsChain(s, p) && p[0] == t
    ensures var r := GroupsChain(s, t, chain);
            var end := p[|p| - 1];
            && (r.Ok? ==> IsPlain(s, end) && r.value == GroupsAlong(s, p))
            && (r.Err? && r.error.UnknownType? ==> end == r.error.name && !IsComplex(s, end))
            && (r.Err? && r.error.CyclicChain? ==> r.error.chain == chain + p && Revisits(chain + p))
    decreases s.complexTypes.Keys - set n | n in chain
  {
    p := [t];
    if t in chain {
      assert (chain + p)[..|chain + p| - 1] == chain;
    } else if t in s.complexTypes && s.complexTypes[t].content.Extension? {
      var base := s.complexTypes[t].content.base;
      assert t in s.complexTypes.Keys - (set n | n in chain);
      assert t !in s.complexTypes.Keys - (set n | n in chain + [t]);
      var q := WalkEnds(s, base, chain + [t]);
      ChainCons(s, t, q);
      p := [t] + q;
      assert p[1..] == q;
      assert chain + [t] + q == chain + p;
    }
  }

  /** Two chains from one name to ends that extend nothing are the same chain. */
  lemma {:induction false} ChainUnique(s: Schema, p: seq<string>, q: seq<string>)
    requires IsChain(s, p) && IsChain(s, q) && p[0] == q[0]
    requires Ends(s, p[|p| - 1])
    requires Ends(s, q[|q| - 1])
    ensures p == q
  {
    if |p| > 1 { ChainTail(s, p); }
    if |q| > 1 { ChainTail(s, q); }
    if |p| > 1 && |q| > 1 {
      ChainUnique(s, p[1..], q[1..]);
      assert p == [p[0]] + p[1..] && q == [q[0]] + q[1..];
    }
  }

  lemma ChainSuffix(s: Schema, p: seq<string>, i: nat)
    requires IsChain(s, p) && i < |p|
    ensures IsChain(s, p[i..]) && p[i..][|p| - i - 1] == p[|p| - 1]
  {
    assert forall k :: 0 <= k < |p[i..]| ==> p[i..][k] == p[i + k];
  }

  /** A chain that ends cannot also go round. */
  lemma {:induction false} EndsDoNotRevisit(s: Schema, p: seq<string>, q: seq<string>)
    requires IsChain(s, p) && IsChain(s, q) && p[0] == q[0]
    requires Ends(s, p[|p| - 1])
    ensures !Revisits(q)
    decreases |q|
  {
    if Revisits(q) {
      FollowsChain(s, p, q);
      var n := |q| - 1;
      var i :| 0 <= i < n && q[..n][i] == q[n];
      assert p[i] == p[n];
      ChainSuffix(s, p, i);
      ChainSuffix(s, p, n);
      ChainUnique(s, p[i..], p[n..]);
      assert false;
    }
  }

  /** Any chain from the start of a finished chain is a prefix of it. */
  lemma {:induction false} FollowsChain(s: Schema, p: seq<string>, q: seq<string>)
    requires IsChain(s, p) && IsChain(s, q) && p[0] == q[0]
    requires Ends(s, p[|p| - 1])
    ensures |q| <= |p| && q == p[..|q|]
  {
    if |q| == 1 {
      assert q == p[..1];
    } else {
      ChainTail(s, q);
      assert |p| > 1;
      ChainTail(s, p);
      FollowsChain(s, p[1..], q[1..]);
      assert p[..|q|] == [p[0]] + p[1..][..|q| - 1];
      assert q == [q[0]] + q[1..];
    }
  }

  ghost predicate ReachesPlain(s: Schema, t: string) {
    exists p, end :: Reaches(s, t, p, end) && IsPlain(s, end)
  }

  ghost predicate ReachesUnknown(s: Schema, t: string, end: string) {
    !IsComplex(s, end) && exists p :: Reaches(s, t, p, end)
  }

  ghost predicate GoesRound(s: Schema, t: string) {
    exists p :: IsChain(s, p) && p[0] == t && Revisits(p)
  }

  /** A chain that reaches a plain type is the one `groups` follows, and the result is its
      groups, base first. */
  lemma GroupsOfChain(s: Schema, t: string, p: seq<string>, end: string)
    requires Reaches(s, t, p, end) && IsPlain(s, end)
    ensures GroupsOf(s, t) == Ok(GroupsAlong(s, p))
  {
    var _ := FinishedWalk(s, t, p, end);
  }

  /** From the start of a chain that ends, the walk ends too, without a cycle. */
  lemma FinishedWalk(s: Schema, t: string, p: seq<string>, end: string) returns (w: seq<string>)
    requires Reaches(s, t, p, end) && Ends(s, end)
    ensures IsChain(s, w) && w[0] == t && w == p
    ensures GroupsOf(s, t) == if IsPlain(s, end) then Ok(GroupsAlong(s, p)) else Err(UnknownType(end))
  {
    w := WalkEnds(s, t, []);
    assert [] + w == w;
    EndsDoNotRevisit(s, p, w);
    ChainUnique(s, p, w);
  }

  /** How `groups` answers, said of the chain alone. It terminates on every schema, cyclic
      ones included, and its three answers are the three ways a chain can go: it reaches a
      plain type, it reaches a name that is no complex type, or it comes back to a name. */
  lemma GroupsExact(s: Schema, t: string)
    ensures GroupsOf(s, t).Ok? <==> ReachesPlain(s, t)
    ensures forall end :: GroupsOf(s, t) == Err(UnknownType(end)) <==> ReachesUnknown(s, t, end)
    ensures (GroupsOf(s, t).Err? && GroupsOf(s, t).error.CyclicChain?) <==> GoesRound(s, t)
  {
    var w := WalkEnds(s, t, []);
    assert [] + w == w;
    assert Reaches(s, t, w, w[|w| - 1]);
    if ReachesPlain(s, t) {
      var p, end :| Reaches(s, t, p, end) && IsPlain(s, end);
      var _ := FinishedWalk(s, t, p, end);
    }
    forall end | ReachesUnknown(s, t, end)
      ensures GroupsOf(s, t) == Err(UnknownType(end))
    {
      var p :| Reaches(s, t, p, end);
      var _ := FinishedWalk(s, t, p, end);
    }
    if GoesRound(s, t) {
      var p :| IsChain(s, p) && p[0] == t && Revisits(p);
      if Ends(s, w[|w| - 1]) { EndsDoNotRevisit(s, w, p); }
    }
  }

  // ---- References ----------------------------------------------------------------------

  predicate Known(s: Schema, t: string) {
    IsPrimitiveName(t) || t in s.complexTypes || t in s.simpleTypes
  }

  function ContentGroups(c: ComplexContent): seq<Group> {
    if c.Groups? then c.groups else c.extra
  }

  /** Something in the schema names `t` as a type. */
  ghost predicate Refers(s: Schema, t: string) {
    || (exists g :: g in s.globalElements && s.globalElements[g] == t)
    || (exists c :: c in s.complexTypes && ContentRefers(s.complexTypes[c].content, t))
    || (exists n :: n in s.simpleTypes && s.simpleTypes[n].base == t)
  }

  ghost predicate ContentRefers(c: ComplexContent, t: string) {
    (c.Extension? && c.base == t) || ElementsRefer(AllElements(ContentGroups(c)), t)
  }

  ghost predicate ElementsRefer(els: seq<ElementDecl>, t: string) {
    exists i :: 0 <= i < |els| && els[i].typeName == t
  }

  function NoteMissing(s: Schema, t: string, missing: set<string>): set<string> {
    if Known(s, t) then missing else missing + {t}
  }

  /** The element loop over one complex type. */
  method NoteContent(s: Schema, c: ComplexContent, before: set<string>) returns (missing: set<string>)
    ensures forall t :: t in missing <==> t in before || (ContentRefers(c, t) && !Known(s, t))
  {
    missing := before;
    if c.Extension? { missing := NoteMissing(s, c.base, missing); }
    var els := AllElements(ContentGroups(c));
    for i := 0 to |els|
      invariant forall t :: t in missing <==>
                  t in before || (!Known(s, t) && ((c.Extension? && c.base == t) || ElementsRefer(els[..i], t)))
    {
      assert els[..i + 1] == els[..i] + [els[i]];
      forall t
        ensures ElementsRefer(els[..i + 1], t) <==> ElementsRefer(els[..i], t) || els[i].typeName == t
      {
        assert els[..i + 1][i] == els[i];
        assert forall k :: 0 <= k < i ==> els[..i + 1][k] == els[..i][k];
      }
      missing := NoteMissing(s, els[i].typeName, missing);
    }
    assert els[..|els|] == els;
  }

  /** `check_references`: every type name that nothing defines. */
  method CheckReferences(s: Schema) returns (missing: set<string>)
    ensures forall t :: t in missing <==> Refers(s, t) && !Known(s, t)
    ensures forall t :: t in missing <==> Refers(s, t) && !("xs:" <= t) && t !in s.complexTypes && t !in s.simpleTypes
  {
    missing := {};
    var globals := s.globalElements.Keys;
    while globals != {}
      invariant globals <= s.globalElements.Keys
      invariant forall t :: t in missing <==>
                  !Known(s, t) && exists g :: g in s.globalElements && g !in globals && s.globalElements[g] == t
      decreases globals
    {
      var g :| g in globals;
      missing := NoteMissing(s, s.globalElements[g], missing);
      globals := globals - {g};
    }
    ghost var fromGlobals := missing;
    var complex := s.complexTypes.Keys;
    while complex != {}
      invariant complex <= s.complexTypes.Keys
      invariant forall t :: t in missing <==>
                  || t in fromGlobals
                  || (!Known(s, t) && exists c :: c in s.complexTypes && c !in complex && ContentRefers(s.complexTypes[c].content, t))
      decreases complex
    {
      var c :| c in complex;
      missing := NoteContent(s, s.complexTypes[c].content, missing);
      complex := complex - {c};
    }
    ghost var fromComplex := missing;
    var simple := s.simpleTypes.Keys;
    while simple != {}
      invariant simple <= s.simpleTypes.Keys
      invariant forall t :: t in missing <==>
                  || t in fromComplex
                  || (!Known(s, t) && exists n :: n in s.simpleTypes && n !in simple && s.simpleTypes[n].base == t)
      decreases simple
    {
      var n :| n in simple;
      missing := NoteMissing(s, s.simpleTypes[n].base, missing);
      simple := simple - {n};
    }
  }

  /** Once references resolve, a defined complex type fails to flatten only because its chain
      goes round, or because it bottoms out in a simple type. */
  lemma ResolvedFailures(s: Schema, t: string)
    requires forall u :: Refers(s, u) ==> Known(s, u)
    requires IsComplex(s, t) && GroupsOf(s, t).Err?
    ensures || GoesRound(s, t)
            || (exists p, end :: Reaches(s, t, p, end) && |p| > 1 && IsSimple(s, end) && !IsComplex(s, end))
  {
    GroupsExact(s, t);
    if GroupsOf(s, t).error.UnknownType? {
      var end := GroupsOf(s, t).error.name;
      var p :| Reaches(s, t, p, end);
      var last := p[|p| - 2];
      assert Extends(s, last, end);
      assert ContentRefers(s.complexTypes[last].content, end);
      assert Refers(s, end);
    }
  }
}
