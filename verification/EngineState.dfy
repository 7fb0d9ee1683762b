/** The router's state and its operations (crates/oa-gateway-core/src/engine.rs). Each
    method here is one that holds the state lock throughout; how publishes interleave is
    the subject of the fan-out model. */
module EngineState {
  import opened Wrappers
  import opened Utf8
  import opened Routing

  /** A bounded delivery channel, seen from the sending side. */
  datatype Queue = Queue(items: seq<Delivery>, capacity: nat, open: bool)

  datatype Target = Target(tx: nat, sub: Text)

  datatype Outcome = Outcome(matched: nat, delivered: nat, dropped: nat)

  predicate Accepts(queues: map<nat, Queue>, tx: nat) {
    tx in queues && queues[tx].open && |queues[tx].items| < queues[tx].capacity
  }

  function Put(queues: map<nat, Queue>, t: Target, e: Envelope): map<nat, Queue> {
    if !Accepts(queues, t.tx) then queues
    else queues[t.tx := queues[t.tx].(items := queues[t.tx].items + [Delivery(t.sub, e)])]
  }

  function PutAll(queues: map<nat, Queue>, ts: seq<Target>, e: Envelope): map<nat, Queue> {
    if ts == [] then queues else Put(PutAll(queues, ts[..|ts| - 1], e), ts[|ts| - 1], e)
  }

  function Accepted(queues: map<nat, Queue>, ts: seq<Target>, e: Envelope): (n: nat)
    ensures n <= |ts|
  {
    if ts == [] then 0
    else Accepted(queues, ts[..|ts| - 1], e) + if Accepts(PutAll(queues, ts[..|ts| - 1], e), ts[|ts| - 1].tx) then 1 else 0
  }

  /** The deliveries meant for one channel. */
  function For(ts: seq<Target>, tx: nat, e: Envelope): seq<Delivery> {
    if ts == [] then []
    else For(ts[..|ts| - 1], tx, e) + if ts[|ts| - 1].tx == tx then [Delivery(ts[|ts| - 1].sub, e)] else []
  }

  function Room(q: Queue): nat {
    if q.open && |q.items| < q.capacity then q.capacity - |q.items| else 0
  }

  /** Each channel takes what fits, in order, and keeps what it had. */
  lemma {:induction false} EachTakesWhatFits(queues: map<nat, Queue>, ts: seq<Target>, e: Envelope, tx: nat)
    requires tx in queues
    ensures tx in PutAll(queues, ts, e)
    ensures PutAll(queues, ts, e)[tx] == queues[tx].(items := queues[tx].items + FirstOf(For(ts, tx, e), Room(queues[tx])))
  {
    var q := queues[tx];
    if ts == [] {
      assert q.items + [] == q.items;
    } else {
      var front, last := ts[..|ts| - 1], ts[|ts| - 1];
      EachTakesWhatFits(queues, front, e, tx);
      var mine, room := For(front, tx, e), Room(q);
      if last.tx == tx {
        var d := Delivery(last.sub, e);
        var p := PutAll(queues, front, e)[tx];
        assert Accepts(PutAll(queues, front, e), tx) <==> |mine| < room;
        if |mine| < room {
          assert FirstOf(mine + [d], room) == mine + [d];
          assert q.items + mine + [d] == q.items + (mine + [d]);
        } else {
          assert FirstOf(mine + [d], room) == FirstOf(mine, room);
        }
      } else {
        assert For(ts, tx, e) == mine + [];
      }
    }
  }

  /** Targets are the channels and ids of the listed subscriptions. */
  ghost predicate Aims(t: Table, order: seq<Key>, targets: seq<Target>) {
    |targets| == |order| && forall i :: 0 <= i < |order| ==> order[i] in t && targets[i] == Target(t[order[i]].tx, order[i].sub)
  }

  class Channels {
    var queues: map<nat, Queue>

    constructor ()
      ensures queues == map[]
    {
      queues := map[];
    }

    /** `try_send`: refused when the channel is full or closed. */
    method TrySend(t: Target, e: Envelope) returns (sent: bool)
      modifies this
      ensures sent == Accepts(old(queues), t.tx) && queues == Put(old(queues), t, e)
    {
      sent := t.tx in queues && queues[t.tx].open && |queues[t.tx].items| < queues[t.tx].capacity;
      if sent {
        queues := queues[t.tx := queues[t.tx].(items := queues[t.tx].items + [Delivery(t.sub, e)])];
      }
    }
  }

  class Engine {
    var byKey: Table
    var byAdapter: map<Text, set<Text>>
    var exact: map<Text, map<Text, set<Key>>>
    var wildcards: map<Text, set<Key>>
    var published: nat
    var delivered: nat
    var dropped: nat

    /** The three indexes say what the flat table says, and hold no empty sets. */
    ghost predicate Valid()
      reads this
    {
      AdaptersIndexed(byKey, byAdapter) && RoutesIndexed(byKey, exact, wildcards)
    }

    constructor ()
      ensures Valid() && byKey == map[] && published == delivered == dropped == 0
    {
      byKey, byAdapter, exact, wildcards := map[], map[], map[], map[];
      published, delivered, dropped := 0, 0, 0;
    }

    /** `insert_index` */
    method InsertIndex(key: Key, route: Route)
      modifies this`exact, this`wildcards
      ensures exact == FileExact(old(exact), key, route)
      ensures wildcards == FileWildcard(old(wildcards), key, route)
    {
      if route.hint.Some? {
        var hint := route.hint.value;
        var row := if route.topic in exact then exact[route.topic] else map[];
        var keys := if hint in row then row[hint] else {};
        exact := exact[route.topic := row[hint := keys + {key}]];
      } else {
        var keys := if route.topic in wildcards then wildcards[route.topic] else {};
        wildcards := wildcards[route.topic := keys + {key}];
      }
    }

    /** `remove_subscription`: asks nothing of the adapter index, which `drop_adapter` has
        already emptied of its adapter when it comes here. */
    method RemoveSubscription(key: Key) returns (removed: bool)
      modifies this`byKey, this`byAdapter, this`exact, this`wildcards
      ensures removed == (key in old(byKey))
      ensures !removed ==> byKey == old(byKey) && byAdapter == old(byAdapter) && exact == old(exact) && wildcards == old(wildcards)
      ensures removed ==> byKey == old(byKey) - {key} && byAdapter == Without(old(byAdapter), key.adapter, key.sub)
      ensures removed ==> exact == UnfileExact(old(exact), key, old(byKey)[key].route)
      ensures removed ==> wildcards == UnfileWildcard(old(wildcards), key, old(byKey)[key].route)
    {
      if key !in byKey { return false; }
      var route := byKey[key].route;
      byKey := byKey - {key};
      if key.adapter in byAdapter {
        var subs := byAdapter[key.adapter] - {key.sub};
        byAdapter := if subs == {} then byAdapter - {key.adapter} else byAdapter[key.adapter := subs];
      }
      if route.hint.Some? {
        var hint := route.hint.value;
        if route.topic in exact {
          var row := exact[route.topic];
          if hint in row {
            var keys := row[hint] - {key};
            row := if keys == {} then row - {hint} else row[hint := keys];
          }
          exact := if row == map[] then exact - {route.topic} else exact[route.topic := row];
        }
      } else if route.topic in wildcards {
        var keys := wildcards[route.topic] - {key};
        wildcards := if keys == {} then wildcards - {route.topic} else wildcards[route.topic := keys];
      }
      return true;
    }

    method Subscribe(adapter: Text, sub: Text, route: Route, tx: nat) returns (r: Result<Key, EngineError>)
      requires Valid()
      modifies this`byKey, this`byAdapter, this`exact, this`wildcards
      ensures Valid()
      ensures Key(adapter, sub) in old(byKey) ==> r == Err(DuplicateSub(sub)) && byKey == old(byKey)
      ensures Key(adapter, sub) !in old(byKey) ==>
                r == Ok(Key(adapter, sub)) && byKey == old(byKey)[Key(adapter, sub) := Subscription(route, tx)]
    {
      var key := Key(adapter, sub);
      if key in byKey { return Err(DuplicateSub(sub)); }
      InsertRoute(byKey, exact, wildcards, key, Subscription(route, tx));
      InsertAdapter(byKey, byAdapter, key, Subscription(route, tx));
      InsertIndex(key, route);
      var subs := if adapter in byAdapter then byAdapter[adapter] else {};
      byAdapter := byAdapter[adapter := subs + {sub}];
      byKey := byKey[key := Subscription(route, tx)];
      return Ok(key);
    }

    method Unsubscribe(adapter: Text, sub: Text) returns (r: Result<(), EngineError>)
      requires Valid()
      modifies this`byKey, this`byAdapter, this`exact, this`wildcards
      ensures Valid()
      ensures byKey == old(byKey) - {Key(adapter, sub)}
      ensures r == if Key(adapter, sub) in old(byKey) then Ok(()) else Err(UnknownSub(sub))
    {
      var key := Key(adapter, sub);
      RemoveAdapter(byKey, byAdapter, key);
      if key in byKey { RemoveRoute(byKey, exact, wildcards, key); }
      var removed := RemoveSubscription(key);
      return if removed then Ok(()) else Err(UnknownSub(sub));
    }

    /** Removes one adapter's subscriptions, those and no others, and counts them. The
        adapter's own index entry goes first, so the indexes disagree until the loop ends. */
    method DropAdapter(adapter: Text) returns (removed: nat)
      requires Valid()
      modifies this`byKey, this`byAdapter, this`exact, this`wildcards
      ensures Valid()
      ensures byKey == WithoutAdapter(old(byKey), adapter)
      ensures removed == |SubsOf(old(byKey), adapter)| && |byKey| + removed == |old(byKey)|
    {
      assert Look(byAdapter, adapter) == SubsOf(byKey, adapter);
      if adapter !in byAdapter {
        NothingToDrop(byKey, adapter);
        return 0;
      }
      var subs := byAdapter[adapter];
      byAdapter := byAdapter - {adapter};
      removed := 0;
      while subs != {}
        invariant RoutesIndexed(byKey, exact, wildcards) && OthersIndexed(byKey, byAdapter, adapter)
        invariant SubsOf(byKey, adapter) == subs
        invariant WithoutAdapter(byKey, adapter) == WithoutAdapter(old(byKey), adapter)
        invariant removed + |subs| == |SubsOf(old(byKey), adapter)|
        invariant |byKey| + removed == |old(byKey)|
        decreases subs
      {
        var sub :| sub in subs;
        var key := Key(adapter, sub);
        assert key in byKey by { SubsAreKeys(byKey, adapter, sub); }
        RemoveRoute(byKey, exact, wildcards, key);
        RemoveAdapter(byKey, byAdapter, key);
        SubsOfRemoved(byKey, key, adapter);
        ghost var t := byKey;
        var ok := RemoveSubscription(key);
        OneFewer(t, key);
        subs := subs - {sub};
        if ok { removed := removed + 1; }
      }
      NothingToDrop(byKey, adapter);
      assert forall a :: Look(byAdapter, a) == SubsOf(byKey, a);
    }

    /** `collect_targets`: every matching subscription once, in some order. */
    method CollectTargets(route: Route) returns (out: seq<Target>, ghost order: seq<Key>)
      requires Valid()
      ensures |out| == |Matching(byKey, route)|
      ensures forall t :: t in out <==> exists k :: k in Matching(byKey, route) && t == Target(byKey[k].tx, k.sub)
      ensures Enumerates(order, Matching(byKey, route)) && Aims(byKey, order, out)
    {
      var keys: set<Key> := {};
      if route.topic in wildcards { keys := keys + wildcards[route.topic]; }
      if route.hint.Some? && route.topic in exact && route.hint.value in exact[route.topic] {
        keys := keys + exact[route.topic][route.hint.value];
      }
      LookupsMatch(byKey, exact, wildcards, route);
      assert keys == Matching(byKey, route);
      out, order := ListTargets(keys);
      EnumerationLength(order, keys);
      AimsAtAll(byKey, order, out, keys);
    }

    /** The loop over a hash set, in whatever order it comes. */
    method ListTargets(all: set<Key>) returns (out: seq<Target>, ghost order: seq<Key>)
      requires all <= byKey.Keys
      ensures Enumerates(order, all) && Aims(byKey, order, out)
    {
      var keys := all;
      out, order := [], [];
      while keys != {}
        invariant keys <= all && Enumerates(order, all - keys) && Aims(byKey, order, out)
        decreases keys
      {
        var key :| key in keys;
        EnumeratesAppend(order, all - keys, key);
        assert all - keys + {key} == all - (keys - {key});
        keys := keys - {key};
        out := out + [Target(byKey[key].tx, key.sub)];
        order := order + [key];
      }
      assert all - keys == all;
    }

    /** `publish`, running alone. Every matching subscription is tried once; the counters
        grow by what happened. */
    method Publish(e: Envelope, channels: Channels) returns (outcome: Outcome, ghost order: seq<Key>, ghost targets: seq<Target>)
      requires Valid()
      modifies this`published, this`delivered, this`dropped, channels
      ensures Valid()
      ensures Enumerates(order, Matching(byKey, e.route)) && Aims(byKey, order, targets)
      ensures channels.queues == PutAll(old(channels.queues), targets, e)
      ensures outcome.matched == |Matching(byKey, e.route)| && outcome.delivered + outcome.dropped == outcome.matched
      ensures outcome.delivered == Accepted(old(channels.queues), targets, e)
      ensures published == old(published) + 1
      ensures delivered == old(delivered) + outcome.delivered && dropped == old(dropped) + outcome.dropped
    {
      published := published + 1;
      var ts;
      ts, order := CollectTargets(e.route);
      targets := ts;
      var sent, lost := 0, 0;
      for i := 0 to |ts|
        invariant channels.queues == PutAll(old(channels.queues), ts[..i], e)
        invariant sent == Accepted(old(channels.queues), ts[..i], e) && sent + lost == i
        invariant published == old(published) + 1 && delivered == old(delivered) && dropped == old(dropped)
      {
        assert ts[..i + 1][..i] == ts[..i];
        var ok := channels.TrySend(ts[i], e);
        if ok { sent := sent + 1; } else { lost := lost + 1; }
      }
      assert ts[..|ts|] == ts;
      delivered := delivered + sent;
      dropped := dropped + lost;
      outcome := Outcome(|ts|, sent, lost);
    }
  }

  lemma AimsAtAll(t: Table, order: seq<Key>, targets: seq<Target>, all: set<Key>)
    requires Enumerates(order, all) && Aims(t, order, targets) && all <= t.Keys
    ensures forall x :: x in targets <==> exists k :: k in all && x == Target(t[k].tx, k.sub)
  {
    forall x ensures x in targets <==> exists k :: k in all && x == Target(t[k].tx, k.sub) {
      if x in targets {
        var i :| 0 <= i < |targets| && targets[i] == x;
        assert order[i] in order;
      }
      if k :| k in all && x == Target(t[k].tx, k.sub) {
        assert k in order;
        var i :| 0 <= i < |order| && order[i] == k;
        assert targets[i] == x;
      }
    }
  }

  lemma SubsAreKeys(t: Table, adapter: Text, sub: Text)
    ensures sub in SubsOf(t, adapter) <==> Key(adapter, sub) in t
  {
  }

  lemma OneFewer(t: Table, k: Key)
    requires k in t
    ensures |t - {k}| == |t| - 1
    ensures WithoutAdapter(t - {k}, k.adapter) == WithoutAdapter(t, k.adapter)
  {
    assert (t - {k}).Keys == t.Keys - {k};
  }

  lemma NothingToDrop(t: Table, adapter: Text)
    requires SubsOf(t, adapter) == {}
    ensures WithoutAdapter(t, adapter) == t
  {
    forall k | k in t ensures k.adapter != adapter { assert k.sub in SubsOf(t, k.adapter); }
  }
}
