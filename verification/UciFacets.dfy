/** Facets gathered along a restriction chain (crates/oa-gateway-uci/src/schema.rs,
    `primitive` and `effective_facets`). */
module UciFacets {
  import opened Wrappers
  import opened Primitive
  import opened UciSchema

  datatype Effective = Effective(
    enumeration: Option<seq<string>>,
    patterns: seq<seq<string>>,
    length: Option<nat>,
    minLength: Option<nat>,
    maxLength: Option<nat>,
    minInclusive: Option<F64>,
    maxInclusive: Option<F64>,
    minExclusive: Option<F64>,
    maxExclusive: Option<F64>)

  const NO_FACETS := Effective(None, [], None, None, None, None, None, None, None)

  /** Facets of the links a walk of at most `n` steps visits, most derived first. */
  function Links(s: Schema, t: string, n: nat): seq<Facets>
    decreases n
  {
    if n == 0 || t !in s.simpleTypes then []
    else [s.simpleTypes[t].facets] + Links(s, s.simpleTypes[t].base, n - 1)
  }

  /** The name a walk of at most `n` steps stops at. */
  function Reduce(s: Schema, t: string, n: nat): string
    decreases n
  {
    if n == 0 || IsPrimitiveName(t) || t !in s.simpleTypes then t else Reduce(s, s.simpleTypes[t].base, n - 1)
  }

  /** `Schema::primitive`. */
  method PrimitiveOf(s: Schema, t: string) returns (r: string)
    ensures r == Reduce(s, t, MAX_SIMPLE_DEPTH)
  {
    r := t;
    for i := 0 to MAX_SIMPLE_DEPTH
      invariant Reduce(s, t, MAX_SIMPLE_DEPTH) == Reduce(s, r, MAX_SIMPLE_DEPTH - i)
    {
      if IsPrimitiveName(r) || r !in s.simpleTypes { return r; }
      r := s.simpleTypes[r].base;
    }
  }

  // ---- Merging -------------------------------------------------------------------------

  function StricterMin(a: Option<nat>, b: Option<nat>): Option<nat> {
    if a.Some? && b.Some? then (if a.value > b.value then a else b) else if a.Some? then a else b
  }

  function StricterMax(a: Option<nat>, b: Option<nat>): Option<nat> {
    if a.Some? && b.Some? then (if a.value < b.value then a else b) else if a.Some? then a else b
  }

  /** `f64::max`: the other operand when one is NaN. */
  function FloatMax(a: F64, b: F64): F64 {
    if Denotes(a).NaN? then b else if Denotes(b).NaN? then a else if Less(Denotes(a), Denotes(b)) then b else a
  }

  function FloatMin(a: F64, b: F64): F64 {
    if Denotes(a).NaN? then b else if Denotes(b).NaN? then a else if Less(Denotes(b), Denotes(a)) then b else a
  }

  function StricterLow(a: Option<F64>, b: Option<F64>): Option<F64> {
    if a.Some? && b.Some? then Some(FloatMax(a.value, b.value)) else if a.Some? then a else b
  }

  function StricterHigh(a: Option<F64>, b: Option<F64>): Option<F64> {
    if a.Some? && b.Some? then Some(FloatMin(a.value, b.value)) else if a.Some? then a else b
  }

  /** One link folded into what the more derived links gave. */
  function Merge(out: Effective, f: Facets): Effective {
    Effective(
      if out.enumeration.None? && f.enumeration != [] then Some(f.enumeration) else out.enumeration,
      if f.patterns != [] then out.patterns + [f.patterns] else out.patterns,
      if out.length.Some? then out.length else f.length,
      StricterMin(out.minLength, f.minLength),
      StricterMax(out.maxLength, f.maxLength),
      StricterLow(out.minInclusive, f.minInclusive),
      StricterHigh(out.maxInclusive, f.maxInclusive),
      StricterLow(out.minExclusive, f.minExclusive),
      StricterHigh(out.maxExclusive, f.maxExclusive))
  }

  function MergeAll(out: Effective, links: seq<Facets>): Effective
    decreases |links|
  {
    if links == [] then out else MergeAll(Merge(out, links[0]), links[1..])
  }

  function EffectiveOf(s: Schema, t: string): Effective {
    MergeAll(NO_FACETS, Links(s, t, MAX_SIMPLE_DEPTH))
  }

  /** `Schema::effective_facets`. */
  method EffectiveFacets(s: Schema, t: string) returns (out: Effective)
    ensures out == EffectiveOf(s, t)
  {
    out := NO_FACETS;
    var current := t;
    for i := 0 to MAX_SIMPLE_DEPTH
      invariant EffectiveOf(s, t) == MergeAll(out, Links(s, current, MAX_SIMPLE_DEPTH - i))
    {
      if current !in s.simpleTypes { return; }
      var simple := s.simpleTypes[current];
      assert Links(s, current, MAX_SIMPLE_DEPTH - i)[1..] == Links(s, simple.base, MAX_SIMPLE_DEPTH - i - 1);
      out := Merge(out, simple.facets);
      current := simple.base;
    }
  }

  // ---- What a value has to satisfy -----------------------------------------------------

  /** A value, with its length in its primitive's unit and the double it parses as. */
  datatype Value = Value(text: string, length: nat, number: Option<F64>)

  predicate AtLeastLength(v: Value, min: Option<nat>) {
    min.Some? ==> min.value <= v.length
  }

  predicate AtMostLength(v: Value, max: Option<nat>) {
    max.Some? ==> v.length <= max.value
  }

  predicate ExactLength(v: Value, n: Option<nat>) {
    n.Some? ==> v.length == n.value
  }

  /** Bounds say nothing to text that is no number. */
  predicate NotBelow(v: Value, min: Option<F64>) {
    v.number.Some? && min.Some? ==> !Less(Denotes(v.number.value), Denotes(min.value))
  }

  predicate NotAbove(v: Value, max: Option<F64>) {
    v.number.Some? && max.Some? ==> !Less(Denotes(max.value), Denotes(v.number.value))
  }

  /** `!(number <= min)`, which NaN satisfies. */
  predicate Above(v: Value, min: Option<F64>) {
    v.number.Some? && min.Some? ==>
      Denotes(v.number.value).NaN? || Denotes(min.value).NaN? || Less(Denotes(min.value), Denotes(v.number.value))
  }

  predicate Below(v: Value, max: Option<F64>) {
    v.number.Some? && max.Some? ==>
      Denotes(v.number.value).NaN? || Denotes(max.value).NaN? || Less(Denotes(v.number.value), Denotes(max.value))
  }

  predicate Listed(v: Value, enumeration: seq<string>) {
    enumeration != [] ==> v.text in enumeration
  }

  predicate MatchesAny(p: Platform, patterns: seq<string>, text: string) {
    exists i :: 0 <= i < |patterns| && p.matches(patterns[i], text)
  }

  /** One restriction alone: patterns written in it are alternatives (XML Schema Part 2,
      section 4.3.4). */
  predicate PassesLink(p: Platform, f: Facets, v: Value) {
    && Listed(v, f.enumeration)
    && (f.patterns != [] ==> MatchesAny(p, f.patterns, v.text))
    && ExactLength(v, f.length) && AtLeastLength(v, f.minLength) && AtMostLength(v, f.maxLength)
    && NotBelow(v, f.minInclusive) && NotAbove(v, f.maxInclusive)
    && Above(v, f.minExclusive) && Below(v, f.maxExclusive)
  }

  predicate PassesAll(p: Platform, links: seq<Facets>, v: Value) {
    forall i :: 0 <= i < |links| ==> PassesLink(p, links[i], v)
  }

  /** The merged facets: every pattern group has to be matched. */
  predicate PassesMerged(p: Platform, e: Effective, v: Value) {
    && (e.enumeration.Some? ==> v.text in e.enumeration.value)
    && (forall i :: 0 <= i < |e.patterns| ==> MatchesAny(p, e.patterns[i], v.text))
    && ExactLength(v, e.length) && AtLeastLength(v, e.minLength) && AtMostLength(v, e.maxLength)
    && NotBelow(v, e.minInclusive) && NotAbove(v, e.maxInclusive)
    && Above(v, e.minExclusive) && Below(v, e.maxExclusive)
  }

  /** What merging forgets: an enumeration or a length below a more derived one. */
  predicate ForgottenHold(links: seq<Facets>, v: Value) {
    forall i :: 0 <= i < |links| ==> Listed(v, links[i].enumeration) && ExactLength(v, links[i].length)
  }

  /** Every enumeration is within each one it restricts, as XSD demands. */
  predicate Narrowing(links: seq<Facets>) {
    forall i, j :: 0 <= i < j < |links| && links[i].enumeration != [] && links[j].enumeration != [] ==>
      forall x :: x in links[i].enumeration ==> x in links[j].enumeration
  }

  predicate AgreeingLengths(links: seq<Facets>) {
    forall i, j :: 0 <= i < j < |links| && links[i].length.Some? && links[j].length.Some? ==>
      links[i].length == links[j].length
  }

  // ---- Merging keeps what the links say ------------------------------------------------

  lemma LowerMerges(v: Value, a: Option<F64>, b: Option<F64>)
    ensures NotBelow(v, StricterLow(a, b)) <==> NotBelow(v, a) && NotBelow(v, b)
    ensures Above(v, StricterLow(a, b)) <==> Above(v, a) && Above(v, b)
  {
    if v.number.Some? && a.Some? && b.Some? {
      LowerOrder(Denotes(v.number.value), Denotes(a.value), Denotes(b.value));
    }
  }

  lemma UpperMerges(v: Value, a: Option<F64>, b: Option<F64>)
    ensures NotAbove(v, StricterHigh(a, b)) <==> NotAbove(v, a) && NotAbove(v, b)
    ensures Below(v, StricterHigh(a, b)) <==> Below(v, a) && Below(v, b)
  {
    if v.number.Some? && a.Some? && b.Some? {
      LowerOrder(Denotes(v.number.value), Denotes(a.value), Denotes(b.value));
    }
  }

  /** Doubles other than NaN are totally ordered. */
  lemma LowerOrder(x: Extended, a: Extended, b: Extended)
    ensures Less(a, b) && Less(x, a) ==> Less(x, b)
    ensures Less(a, b) && Less(b, x) ==> Less(a, x)
    ensures !x.NaN? && !a.NaN? && !b.NaN? && !Less(a, b) && Less(x, b) ==> Less(x, a)
    ensures !x.NaN? && !a.NaN? && !b.NaN? && !Less(a, b) && Less(a, x) ==> Less(b, x)
    ensures !x.NaN? && !a.NaN? && !b.NaN? && !Less(b, a) && Less(b, x) ==> Less(a, x)
    ensures !x.NaN? && !a.NaN? && !b.NaN? && !Less(b, a) && Less(x, a) ==> Less(x, b)
  {
  }

  /** One link: the merged facets and the link's own enumeration and length hold exactly when
      the facets so far and the link hold, given that what came first is not contradicted. */
  lemma MergeStep(p: Platform, out: Effective, f: Facets, v: Value)
    ensures PassesMerged(p, Merge(out, f), v) && Listed(v, f.enumeration) && ExactLength(v, f.length)
            <==> PassesMerged(p, out, v) && PassesLink(p, f, v)
  {
    LowerMerges(v, out.minInclusive, f.minInclusive);
    LowerMerges(v, out.minExclusive, f.minExclusive);
    UpperMerges(v, out.maxInclusive, f.maxInclusive);
    UpperMerges(v, out.maxExclusive, f.maxExclusive);
    PatternsMerge(p, out.patterns, f.patterns, v.text);
    var m := Merge(out, f);
    assert AtLeastLength(v, m.minLength) <==> AtLeastLength(v, out.minLength) && AtLeastLength(v, f.minLength);
    assert AtMostLength(v, m.maxLength) <==> AtMostLength(v, out.maxLength) && AtMostLength(v, f.maxLength);
  }

  lemma PatternsMerge(p: Platform, groups: seq<seq<string>>, patterns: seq<string>, text: string)
    ensures (forall i :: 0 <= i < |groups + [patterns]| ==> MatchesAny(p, (groups + [patterns])[i], text)) <==>
            (forall i :: 0 <= i < |groups| ==> MatchesAny(p, groups[i], text)) && MatchesAny(p, patterns, text)
  {
    assert forall i :: 0 <= i < |groups| ==> (groups + [patterns])[i] == groups[i];
    assert (groups + [patterns])[|groups|] == patterns;
  }

  lemma {:induction false} MergeAllExact(p: Platform, out: Effective, links: seq<Facets>, v: Value)
    ensures PassesMerged(p, MergeAll(out, links), v) && ForgottenHold(links, v)
            <==> PassesMerged(p, out, v) && PassesAll(p, links, v)
    decreases |links|
  {
    if links != [] {
      MergeAllExact(p, Merge(out, links[0]), links[1..], v);
      MergeStep(p, out, links[0], v);
      LinksCons(p, links, v);
    }
  }

  lemma LinksCons(p: Platform, links: seq<Facets>, v: Value)
    requires links != []
    ensures ForgottenHold(links, v) <==>
            Listed(v, links[0].enumeration) && ExactLength(v, links[0].length) && ForgottenHold(links[1..], v)
    ensures PassesAll(p, links, v) <==> PassesLink(p, links[0], v) && PassesAll(p, links[1..], v)
  {
    assert forall i :: 0 < i < |links| ==> links[i] == links[1..][i - 1];
  }

  /** Exactly what merging decides, on every chain: a value passes every link if and only if
      it passes the merged facets and the enumerations and lengths merging leaves out. */
  lemma MergedExact(p: Platform, links: seq<Facets>, v: Value)
    ensures PassesAll(p, links, v) <==> PassesMerged(p, MergeAll(NO_FACETS, links), v) && ForgottenHold(links, v)
  {
    MergeAllExact(p, NO_FACETS, links, v);
  }

  /** The first enumeration and the first length are the ones kept. */
  lemma {:induction false} MergeKeepsFirst(out: Effective, links: seq<Facets>)
    ensures var e := MergeAll(out, links);
            && (out.enumeration.Some? ==> e.enumeration == out.enumeration)
            && (out.length.Some? ==> e.length == out.length)
            && (out.enumeration.None? ==> forall j ::
                  0 <= j < |links| && links[j].enumeration != [] && (forall i :: 0 <= i < j ==> links[i].enumeration == [])
                  ==> e.enumeration == Some(links[j].enumeration))
            && (out.length.None? ==> forall j ::
                  0 <= j < |links| && links[j].length.Some? && (forall i :: 0 <= i < j ==> links[i].length.None?)
                  ==> e.length == links[j].length)
    decreases |links|
  {
    if links != [] {
      var rest := links[1..];
      MergeKeepsFirst(Merge(out, links[0]), rest);
      assert forall j :: 0 < j < |links| ==> links[j] == rest[j - 1];
    }
  }

  lemma {:induction false} FirstEnumeration(links: seq<Facets>, k: nat) returns (j: nat)
    requires k < |links| && links[k].enumeration != []
    ensures j <= k && links[j].enumeration != [] && forall i :: 0 <= i < j ==> links[i].enumeration == []
  {
    j := 0;
    while links[j].enumeration == []
      invariant j <= k && forall i :: 0 <= i < j ==> links[i].enumeration == []
      decreases k - j
    {
      j := j + 1;
    }
  }

  lemma {:induction false} FirstLength(links: seq<Facets>, k: nat) returns (j: nat)
    requires k < |links| && links[k].length.Some?
    ensures j <= k && links[j].length.Some? && forall i :: 0 <= i < j ==> links[i].length.None?
  {
    j := 0;
    while links[j].length.None?
      invariant j <= k && forall i :: 0 <= i < j ==> links[i].length.None?
      decreases k - j
    {
      j := j + 1;
    }
  }

  /** On a chain as XSD allows it, nothing is forgotten: merged facets and the links agree. */
  lemma MergedAgrees(p: Platform, links: seq<Facets>, v: Value)
    requires Narrowing(links) && AgreeingLengths(links)
    ensures PassesMerged(p, MergeAll(NO_FACETS, links), v) <==> PassesAll(p, links, v)
  {
    MergedExact(p, links, v);
    MergeKeepsFirst(NO_FACETS, links);
    var e := MergeAll(NO_FACETS, links);
    if PassesMerged(p, e, v) {
      forall k | 0 <= k < |links|
        ensures Listed(v, links[k].enumeration) && ExactLength(v, links[k].length)
      {
        if links[k].enumeration != [] {
          var j := FirstEnumeration(links, k);
          assert e.enumeration == Some(links[j].enumeration);
        }
        if links[k].length.Some? {
          var j := FirstLength(links, k);
          assert e.length == links[j].length;
        }
      }
    }
  }

  // ---- A schema's own chains -----------------------------------------------------------

  /** Each name is a simple type that restricts the next, and the last restricts none. */
  predicate RestrictionChain(s: Schema, names: seq<string>) {
    && names != []
    && (forall i :: 0 <= i < |names| ==> names[i] in s.simpleTypes)
    && (forall i :: 0 <= i < |names| - 1 ==> s.simpleTypes[names[i]].base == names[i + 1])
    && s.simpleTypes[names[|names| - 1]].base !in s.simpleTypes
  }

  function FacetsOf(s: Schema, names: seq<string>): (r: seq<Facets>)
    requires forall i :: 0 <= i < |names| ==> names[i] in s.simpleTypes
    ensures |r| == |names|
  {
    seq(|names|, i requires 0 <= i < |names| => s.simpleTypes[names[i]].facets)
  }

  lemma FirstCons<T>(xs: seq<T>, n: nat)
    requires xs != [] && n > 0
    ensures FirstOf(xs, n) == [xs[0]] + FirstOf(xs[1..], n - 1)
  {
  }

  lemma RestrictionTail(s: Schema, names: seq<string>)
    requires RestrictionChain(s, names) && |names| > 1
    ensures RestrictionChain(s, names[1..]) && FacetsOf(s, names[1..]) == FacetsOf(s, names)[1..]
    ensures s.simpleTypes[names[0]].base == names[1..][0]
  {
    var rest := names[1..];
    assert forall i :: 0 <= i < |rest| ==> rest[i] == names[i + 1];
  }

  lemma {:induction false} LinksOfChain(s: Schema, names: seq<string>, n: nat)
    requires RestrictionChain(s, names)
    ensures Links(s, names[0], n) == FirstOf(FacetsOf(s, names), n)
    decreases n
  {
    if n > 0 {
      FirstCons(FacetsOf(s, names), n);
      if |names| == 1 {
        assert Links(s, s.simpleTypes[names[0]].base, n - 1) == [];
        assert FacetsOf(s, names)[1..] == [];
      } else {
        RestrictionTail(s, names);
        LinksOfChain(s, names[1..], n - 1);
      }
    }
  }

  /** On every restriction chain of a schema, what `effective_facets` decides is the facets of
      its first 16 types, which are all of them unless it has more; links past the sixteenth
      are not read. */
  lemma EffectiveAgrees(p: Platform, s: Schema, names: seq<string>, v: Value)
    requires RestrictionChain(s, names)
    requires Narrowing(FacetsOf(s, names)) && AgreeingLengths(FacetsOf(s, names))
    ensures PassesMerged(p, EffectiveOf(s, names[0]), v) <==> PassesAll(p, FirstOf(FacetsOf(s, names), MAX_SIMPLE_DEPTH), v)
    ensures |names| <= MAX_SIMPLE_DEPTH ==>
              (PassesMerged(p, EffectiveOf(s, names[0]), v) <==> PassesAll(p, FacetsOf(s, names), v))
  {
    LinksOfChain(s, names, MAX_SIMPLE_DEPTH);
    var links := FirstOf(FacetsOf(s, names), MAX_SIMPLE_DEPTH);
    assert forall i :: 0 <= i < |links| ==> links[i] == FacetsOf(s, names)[i];
    MergedAgrees(p, links, v);
  }

  /** Where the walk of `Schema::primitive` ends on a restriction chain: at the first `xs:` name
      on the way, else at the base of the last type, if it gets that far in 16 steps. */
  lemma {:induction false} ReduceOfChain(s: Schema, names: seq<string>, n: nat, k: nat)
    requires RestrictionChain(s, names) && k <= |names| && k <= n
    requires forall i :: 0 <= i < k ==> !IsPrimitiveName(names[i])
    requires k < |names| ==> IsPrimitiveName(names[k]) || k == n
    ensures Reduce(s, names[0], n) == if k < |names| then names[k] else s.simpleTypes[names[|names| - 1]].base
  {
    if k > 0 {
      if |names| == 1 {
        assert Reduce(s, s.simpleTypes[names[0]].base, n - 1) == s.simpleTypes[names[0]].base;
      } else {
        RestrictionTail(s, names);
        assert forall i :: 0 <= i < |names[1..]| ==> names[1..][i] == names[i + 1];
        ReduceOfChain(s, names[1..], n - 1, k - 1);
      }
    }
  }

  /** So a type derived from an XSD primitive in at most 16 steps is reduced to it. */
  lemma ReducedToPrimitive(s: Schema, names: seq<string>)
    requires RestrictionChain(s, names) && |names| <= MAX_SIMPLE_DEPTH
    requires forall i :: 0 <= i < |names| ==> !IsPrimitiveName(names[i])
    ensures Reduce(s, names[0], MAX_SIMPLE_DEPTH) == s.simpleTypes[names[|names| - 1]].base
  {
    ReduceOfChain(s, names, MAX_SIMPLE_DEPTH, |names|);
  }
}
