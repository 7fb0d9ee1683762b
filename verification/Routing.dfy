/** What the router promises, said over one flat table of subscriptions
    (crates/oa-gateway-core/src/route.rs, envelope.rs and engine.rs). */
module Routing {
  import opened Wrappers
  import opened Utf8

  datatype Route = Route(topic: Text, hint: Option<Text>)

  datatype Envelope = Envelope(id: Text, route: Route, headers: map<Text, Text>, contentType: Text, payload: seq<byte>)

  datatype Key = Key(adapter: Text, sub: Text)

  /** The route a subscriber asked for, and the channel it reads. */
  datatype Subscription = Subscription(route: Route, tx: nat)

  type Table = map<Key, Subscription>

  datatype Delivery = Delivery(sub: Text, envelope: Envelope)

  datatype EngineError = DuplicateSub(sub: Text) | UnknownSub(sub: Text)

  /** A subscription without a hint takes every type on its topic. */
  predicate Matches(published: Route, wanted: Route) {
    wanted.topic == published.topic && (wanted.hint.None? || wanted.hint == published.hint)
  }

  function Matching(t: Table, r: Route): set<Key> {
    set k | k in t && Matches(r, t[k].route)
  }

  /** Every member once. */
  ghost predicate Enumerates<T(!new)>(order: seq<T>, all: set<T>) {
    (forall x :: x in order <==> x in all) && forall i, j :: 0 <= i < j < |order| ==> order[i] != order[j]
  }

  lemma {:induction false} EnumeratesAppend<T(!new)>(order: seq<T>, all: set<T>, x: T)
    requires Enumerates(order, all) && x !in all
    ensures Enumerates(order + [x], all + {x})
  {
  }

  lemma {:induction false} EnumerationLength<T(!new)>(order: seq<T>, all: set<T>)
    requires Enumerates(order, all)
    ensures |order| == |all|
  {
    if order == [] {
      assert all == {};
    } else {
      var last, front := order[|order| - 1], order[..|order| - 1];
      forall y ensures y in front <==> y in all - {last} {
        if y in all && y != last {
          var i :| 0 <= i < |order| && order[i] == y;
          assert front[i] == y;
        }
      }
      EnumerationLength(front, all - {last});
    }
  }

  // ---- What the flat table defines -----------------------------------------------------

  function SubsOf(t: Table, adapter: Text): set<Text> {
    set k | k in t && k.adapter == adapter :: k.sub
  }

  function WildcardsOn(t: Table, topic: Text): set<Key> {
    set k | k in t && t[k].route == Route(topic, None)
  }

  function ExactOn(t: Table, topic: Text, hint: Text): set<Key> {
    set k | k in t && t[k].route == Route(topic, Some(hint))
  }

  /** The table without one adapter. */
  function WithoutAdapter(t: Table, adapter: Text): Table {
    map k | k in t && k.adapter != adapter :: t[k]
  }

  // ---- Maps of sets, kept without empty sets -------------------------------------------

  function Look<A, B>(m: map<A, set<B>>, a: A): set<B> {
    if a in m then m[a] else {}
  }

  function Look2(m: map<Text, map<Text, set<Key>>>, topic: Text, hint: Text): set<Key> {
    if topic in m then Look(m[topic], hint) else {}
  }

  predicate NoEmpty<A, B>(m: map<A, set<B>>) {
    forall a :: a in m ==> m[a] != {}
  }

  predicate NoEmpty2(m: map<Text, map<Text, set<Key>>>) {
    forall t :: t in m ==> m[t] != map[] && NoEmpty(m[t])
  }

  /** `entry(a).or_default().insert(b)` */
  function With<A, B>(m: map<A, set<B>>, a: A, b: B): map<A, set<B>> {
    m[a := Look(m, a) + {b}]
  }

  /** Remove `b` from the set at `a`, and the set once it is empty. */
  function Without<A, B>(m: map<A, set<B>>, a: A, b: B): map<A, set<B>> {
    if a !in m then m else if m[a] - {b} == {} then m - {a} else m[a := m[a] - {b}]
  }

  function With2(m: map<Text, map<Text, set<Key>>>, topic: Text, hint: Text, k: Key): map<Text, map<Text, set<Key>>> {
    m[topic := With(if topic in m then m[topic] else map[], hint, k)]
  }

  function Without2(m: map<Text, map<Text, set<Key>>>, topic: Text, hint: Text, k: Key): map<Text, map<Text, set<Key>>> {
    if topic !in m then m
    else if Without(m[topic], hint, k) == map[] then m - {topic}
    else m[topic := Without(m[topic], hint, k)]
  }

  lemma WithLooks<A, B>(m: map<A, set<B>>, a: A, b: B)
    ensures forall x :: Look(With(m, a, b), x) == if x == a then Look(m, a) + {b} else Look(m, x)
    ensures NoEmpty(m) ==> NoEmpty(With(m, a, b))
  {
  }

  lemma WithoutLooks<A, B>(m: map<A, set<B>>, a: A, b: B)
    ensures forall x :: Look(Without(m, a, b), x) == if x == a then Look(m, a) - {b} else Look(m, x)
    ensures NoEmpty(m) ==> NoEmpty(Without(m, a, b))
  {
  }

  lemma With2Looks(m: map<Text, map<Text, set<Key>>>, topic: Text, hint: Text, k: Key)
    ensures forall t, h :: Look2(With2(m, topic, hint, k), t, h) ==
                           if t == topic && h == hint then Look2(m, topic, hint) + {k} else Look2(m, t, h)
    ensures NoEmpty2(m) ==> NoEmpty2(With2(m, topic, hint, k))
  {
    WithLooks(if topic in m then m[topic] else map[], hint, k);
    assert hint in With2(m, topic, hint, k)[topic];
  }

  lemma Without2Looks(m: map<Text, map<Text, set<Key>>>, topic: Text, hint: Text, k: Key)
    ensures forall t, h :: Look2(Without2(m, topic, hint, k), t, h) ==
                           if t == topic && h == hint then Look2(m, topic, hint) - {k} else Look2(m, t, h)
    ensures NoEmpty2(m) ==> NoEmpty2(Without2(m, topic, hint, k))
  {
    if topic in m {
      WithoutLooks(m[topic], hint, k);
      forall t, h
        ensures Look2(Without2(m, topic, hint, k), t, h) ==
                if t == topic && h == hint then Look2(m, topic, hint) - {k} else Look2(m, t, h)
      {
        assert Look(Without(m[topic], hint, k), h) == if h == hint then Look(m[topic], hint) - {k} else Look(m[topic], h);
      }
    }
  }

  // ---- Indexes that agree with the table -----------------------------------------------

  ghost predicate AdaptersIndexed(t: Table, byAdapter: map<Text, set<Text>>) {
    NoEmpty(byAdapter) && forall a :: Look(byAdapter, a) == SubsOf(t, a)
  }

  /** The same, one adapter aside. */
  ghost predicate OthersIndexed(t: Table, byAdapter: map<Text, set<Text>>, adapter: Text) {
    NoEmpty(byAdapter) && forall a :: Look(byAdapter, a) == if a == adapter then {} else SubsOf(t, a)
  }

  ghost predicate RoutesIndexed(t: Table, exact: map<Text, map<Text, set<Key>>>, wildcards: map<Text, set<Key>>) {
    && NoEmpty(wildcards) && (forall topic :: Look(wildcards, topic) == WildcardsOn(t, topic))
    && NoEmpty2(exact) && (forall topic, hint :: Look2(exact, topic, hint) == ExactOn(t, topic, hint))
  }

  /** The indexes are the only ones the table allows. */
  lemma IndexesAreDetermined(
      t: Table, a: map<Text, set<Text>>, b: map<Text, set<Text>>,
      e: map<Text, map<Text, set<Key>>>, f: map<Text, map<Text, set<Key>>>, v: map<Text, set<Key>>, w: map<Text, set<Key>>)
    requires AdaptersIndexed(t, a) && AdaptersIndexed(t, b) && RoutesIndexed(t, e, v) && RoutesIndexed(t, f, w)
    ensures a == b && e == f && v == w
  {
    forall x ensures Look(a, x) == Look(b, x) { assert Look(a, x) == SubsOf(t, x); }
    SameMap(a, b);
    forall x ensures Look(v, x) == Look(w, x) { assert Look(v, x) == WildcardsOn(t, x); }
    SameMap(v, w);
    forall x, y ensures Look2(e, x, y) == Look2(f, x, y) { assert Look2(e, x, y) == ExactOn(t, x, y); }
    forall x ensures x in e ==> x in f && e[x] == f[x] { SameRow(e, f, x); }
    forall x ensures x in f ==> x in e { SameRow(f, e, x); }
  }

  lemma SameMap<A(!new), B>(a: map<A, set<B>>, b: map<A, set<B>>)
    requires NoEmpty(a) && NoEmpty(b) && forall x :: Look(a, x) == Look(b, x)
    ensures a == b
  {
    forall x
      ensures x in a <==> x in b
      ensures x in a ==> a[x] == Look(b, x)
    {
      assert Look(a, x) == Look(b, x);
    }
  }

  lemma SameRow(e: map<Text, map<Text, set<Key>>>, f: map<Text, map<Text, set<Key>>>, x: Text)
    requires NoEmpty2(e) && NoEmpty2(f) && forall t, h :: Look2(e, t, h) == Look2(f, t, h)
    ensures x in e ==> x in f && e[x] == f[x]
  {
    if x in e {
      var h :| h in e[x];
      assert Look2(e, x, h) == Look2(f, x, h);
      forall y ensures Look(e[x], y) == Look(f[x], y) { assert Look2(e, x, y) == Look2(f, x, y); }
      SameMap(e[x], f[x]);
    }
  }

  lemma InsertAdapter(t: Table, m: map<Text, set<Text>>, k: Key, s: Subscription)
    requires AdaptersIndexed(t, m) && k !in t
    ensures AdaptersIndexed(t[k := s], With(m, k.adapter, k.sub))
  {
    WithLooks(m, k.adapter, k.sub);
    forall a ensures SubsOf(t[k := s], a) == if a == k.adapter then SubsOf(t, a) + {k.sub} else SubsOf(t, a) {
      forall x ensures x in SubsOf(t[k := s], a) <==> x in SubsOf(t, a) || (a == k.adapter && x == k.sub) {
        assert x in SubsOf(t, a) <==> Key(a, x) in t;
        assert x in SubsOf(t[k := s], a) <==> Key(a, x) in t[k := s];
      }
    }
  }

  lemma SubsOfRemoved(t: Table, k: Key, a: Text)
    ensures SubsOf(t - {k}, a) == if a == k.adapter then SubsOf(t, a) - {k.sub} else SubsOf(t, a)
  {
    forall x ensures x in SubsOf(t - {k}, a) <==> x in SubsOf(t, a) && !(a == k.adapter && x == k.sub) {
      assert x in SubsOf(t, a) <==> Key(a, x) in t;
      assert x in SubsOf(t - {k}, a) <==> Key(a, x) in t - {k};
    }
  }

  lemma RemoveAdapter(t: Table, m: map<Text, set<Text>>, k: Key)
    ensures AdaptersIndexed(t, m) ==> AdaptersIndexed(t - {k}, Without(m, k.adapter, k.sub))
    ensures OthersIndexed(t, m, k.adapter) ==> OthersIndexed(t - {k}, Without(m, k.adapter, k.sub), k.adapter)
  {
    WithoutLooks(m, k.adapter, k.sub);
    forall a ensures SubsOf(t - {k}, a) == if a == k.adapter then SubsOf(t, a) - {k.sub} else SubsOf(t, a) {
      SubsOfRemoved(t, k, a);
    }
  }

  /** The route indexes once `k` is filed under its route. */
  function FileExact(e: map<Text, map<Text, set<Key>>>, k: Key, r: Route): map<Text, map<Text, set<Key>>> {
    if r.hint.Some? then With2(e, r.topic, r.hint.value, k) else e
  }

  function FileWildcard(w: map<Text, set<Key>>, k: Key, r: Route): map<Text, set<Key>> {
    if r.hint.Some? then w else With(w, r.topic, k)
  }

  function UnfileExact(e: map<Text, map<Text, set<Key>>>, k: Key, r: Route): map<Text, map<Text, set<Key>>> {
    if r.hint.Some? then Without2(e, r.topic, r.hint.value, k) else e
  }

  function UnfileWildcard(w: map<Text, set<Key>>, k: Key, r: Route): map<Text, set<Key>> {
    if r.hint.Some? then w else Without(w, r.topic, k)
  }

  lemma InsertWildcard(t: Table, w: map<Text, set<Key>>, k: Key, s: Subscription)
    requires NoEmpty(w) && (forall topic :: Look(w, topic) == WildcardsOn(t, topic)) && k !in t
    ensures NoEmpty(FileWildcard(w, k, s.route))
    ensures forall topic :: Look(FileWildcard(w, k, s.route), topic) == WildcardsOn(t[k := s], topic)
  {
    var u, r := t[k := s], s.route;
    WithLooks(w, r.topic, k);
    forall topic ensures Look(FileWildcard(w, k, r), topic) == WildcardsOn(u, topic) {
      assert WildcardsOn(u, topic) == if r == Route(topic, None) then WildcardsOn(t, topic) + {k} else WildcardsOn(t, topic);
    }
  }

  lemma InsertExact(t: Table, e: map<Text, map<Text, set<Key>>>, k: Key, s: Subscription)
    requires NoEmpty2(e) && (forall topic, hint :: Look2(e, topic, hint) == ExactOn(t, topic, hint)) && k !in t
    ensures NoEmpty2(FileExact(e, k, s.route))
    ensures forall topic, hint :: Look2(FileExact(e, k, s.route), topic, hint) == ExactOn(t[k := s], topic, hint)
  {
    var u, r := t[k := s], s.route;
    if r.hint.Some? { With2Looks(e, r.topic, r.hint.value, k); }
    forall topic, hint ensures Look2(FileExact(e, k, r), topic, hint) == ExactOn(u, topic, hint) {
      assert ExactOn(u, topic, hint) == if r == Route(topic, Some(hint)) then ExactOn(t, topic, hint) + {k} else ExactOn(t, topic, hint);
    }
  }

  lemma InsertRoute(t: Table, e: map<Text, map<Text, set<Key>>>, w: map<Text, set<Key>>, k: Key, s: Subscription)
    requires RoutesIndexed(t, e, w) && k !in t
    ensures RoutesIndexed(t[k := s], FileExact(e, k, s.route), FileWildcard(w, k, s.route))
  {
    InsertWildcard(t, w, k, s);
    InsertExact(t, e, k, s);
  }

  lemma RemoveRoute(t: Table, e: map<Text, map<Text, set<Key>>>, w: map<Text, set<Key>>, k: Key)
    requires RoutesIndexed(t, e, w) && k in t
    ensures RoutesIndexed(t - {k}, UnfileExact(e, k, t[k].route), UnfileWildcard(w, k, t[k].route))
  {
    var u, r := t - {k}, t[k].route;
    WithoutLooks(w, r.topic, k);
    if r.hint.Some? { Without2Looks(e, r.topic, r.hint.value, k); }
    forall topic ensures WildcardsOn(u, topic) == WildcardsOn(t, topic) - {k} {}
    forall topic, hint ensures ExactOn(u, topic, hint) == ExactOn(t, topic, hint) - {k} {}
  }

  /** The two lookups `collect_targets` makes find exactly the matching subscriptions. */
  lemma LookupsMatch(t: Table, e: map<Text, map<Text, set<Key>>>, w: map<Text, set<Key>>, r: Route)
    requires RoutesIndexed(t, e, w)
    ensures Matching(t, r) == Look(w, r.topic) + if r.hint.Some? then Look2(e, r.topic, r.hint.value) else {}
  {
    assert Look(w, r.topic) == WildcardsOn(t, r.topic);
    if r.hint.Some? { assert Look2(e, r.topic, r.hint.value) == ExactOn(t, r.topic, r.hint.value); }
    forall k ensures k in Matching(t, r) <==>
                     k in WildcardsOn(t, r.topic) || (r.hint.Some? && k in ExactOn(t, r.topic, r.hint.value))
    {
      if k in t { assert t[k].route == Route(t[k].route.topic, t[k].route.hint); }
    }
  }
}
