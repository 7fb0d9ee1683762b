/** Many OWP connections over one engine, their steps interleaved
    (crates/oa-gateway-owp/src/session.rs and server.rs). A handler reads or edits its own
    `subs` map and calls the engine in separate steps; anything may happen in between. */
module OwpSessions {
  import opened Wrappers
  import opened Utf8
  import opened Routing
  import opened OwpSession

  /** How far the connection's handler has got. */
  datatype Pending =
    | Ready                                   // at a handler boundary
    | Subscribing(sid: Text, route: Route)    // checks passed, engine not called yet
    | Inserting(sid: Text)                    // engine has it, `subs` does not
    | Unsubscribing(sid: Text)                // out of `subs`, engine still has it

  datatype Phase = AwaitingInit | Active | Draining

  datatype Conn = Conn(phase: Phase, subs: set<Text>, pending: Pending)

  /** `failures` counts the Internal-Error replies to a refused engine subscription. */
  datatype State = State(table: Table, conns: map<nat, Conn>, next: nat, failures: nat)

  datatype Config = Config(adapter: Text, maxSubscriptions: nat)

  datatype Step =
    | Accept
    | Init(conn: nat)
    | BeginSub(conn: nat, sid: Text, route: Route)
    | EngineSubscribe(conn: nat, tx: nat)
    | FinishSub(conn: nat)
    | BeginUnsub(conn: nat, sid: Text)
    | EngineUnsubscribe(conn: nat)
    | Leave(conn: nat)
    | DrainOne(conn: nat, sid: Text)
    | Gone(conn: nat)
    | Elsewhere(table: Table)

  /** Other adapters use the same engine. */
  predicate OnlyElsewhere(before: Table, after: Table, adapter: Text) {
    && (forall k :: k in before && k.adapter == adapter ==> k in after && after[k] == before[k])
    && (forall k :: k in after && k.adapter == adapter ==> k in before)
  }

  predicate At(s: State, c: nat, phase: Phase) {
    c in s.conns && s.conns[c].phase == phase && s.conns[c].pending.Ready?
  }

  predicate Enabled(cfg: Config, s: State, step: Step) {
    match step
    case Accept => true
    case Init(c) => At(s, c, AwaitingInit)
    case BeginSub(c, _, _) => At(s, c, Active)
    case EngineSubscribe(c, _) => c in s.conns && s.conns[c].pending.Subscribing?
    case FinishSub(c) => c in s.conns && s.conns[c].pending.Inserting?
    case BeginUnsub(c, _) => At(s, c, Active)
    case EngineUnsubscribe(c) => c in s.conns && s.conns[c].pending.Unsubscribing?
    case Leave(c) => At(s, c, AwaitingInit) || At(s, c, Active)
    case DrainOne(c, sid) => At(s, c, Draining) && sid in s.conns[c].subs
    case Gone(c) => At(s, c, Draining) && s.conns[c].subs == {}
    case Elsewhere(table) => OnlyElsewhere(s.table, table, cfg.adapter)
  }

  function KeyOf(cfg: Config, c: nat, sid: Text): Key {
    Key(cfg.adapter, EngineSub(c, sid))
  }

  function Set(s: State, c: nat, conn: Conn): State {
    s.(conns := s.conns[c := conn])
  }

  function After(cfg: Config, s: State, step: Step): State
    requires Enabled(cfg, s, step)
  {
    match step
    case Accept => Set(s, s.next, Conn(AwaitingInit, {}, Ready)).(next := s.next + 1)
    case Init(c) => Set(s, c, s.conns[c].(phase := Active))
    case BeginSub(c, sid, route) =>
      if sid in s.conns[c].subs || |s.conns[c].subs| >= cfg.maxSubscriptions then s
      else Set(s, c, s.conns[c].(pending := Subscribing(sid, route)))
    case EngineSubscribe(c, tx) =>
      var p := s.conns[c].pending;
      var key := KeyOf(cfg, c, p.sid);
      if key in s.table then Set(s, c, s.conns[c].(pending := Ready)).(failures := s.failures + 1)
      else Set(s, c, s.conns[c].(pending := Inserting(p.sid))).(table := s.table[key := Subscription(p.route, tx)])
    case FinishSub(c) => Set(s, c, s.conns[c].(subs := s.conns[c].subs + {s.conns[c].pending.sid}, pending := Ready))
    case BeginUnsub(c, sid) =>
      if sid !in s.conns[c].subs then s
      else Set(s, c, s.conns[c].(subs := s.conns[c].subs - {sid}, pending := Unsubscribing(sid)))
    case EngineUnsubscribe(c) =>
      Set(s, c, s.conns[c].(pending := Ready)).(table := s.table - {KeyOf(cfg, c, s.conns[c].pending.sid)})
    case Leave(c) => Set(s, c, s.conns[c].(phase := Draining))
    case DrainOne(c, sid) => Set(s, c, s.conns[c].(subs := s.conns[c].subs - {sid}, pending := Unsubscribing(sid)))
    case Gone(c) => s.(conns := s.conns - {c})
    case Elsewhere(table) => s.(table := table)
  }

  /** An engine that knows nothing of this adapter, and no connections. */
  predicate Start(cfg: Config, s: State) {
    (forall k :: k in s.table ==> k.adapter != cfg.adapter) && s.conns == map[] && s.failures == 0
  }

  ghost predicate Run(cfg: Config, states: seq<State>, steps: seq<Step>) {
    && |states| == |steps| + 1
    && Start(cfg, states[0])
    && forall i :: 0 <= i < |steps| ==> Enabled(cfg, states[i], steps[i]) && states[i + 1] == After(cfg, states[i], steps[i])
  }

  // ---- The invariant -------------------------------------------------------------------

  /** What the connection has in the engine, between its steps too. */
  function Held(c: Conn): set<Text> {
    c.subs + if c.pending.Inserting? || c.pending.Unsubscribing? then {c.pending.sid} else {}
  }

  predicate ConnOk(cfg: Config, c: Conn) {
    && |Held(c)| <= cfg.maxSubscriptions
    && (c.phase.AwaitingInit? ==> c.subs == {} && c.pending.Ready?)
    && (!c.pending.Ready? ==> c.pending.sid !in c.subs)
    && (c.pending.Subscribing? ==> |c.subs| < cfg.maxSubscriptions)
  }

  predicate Holds(s: State, c: nat, sid: Text) {
    c in s.conns && sid in Held(s.conns[c])
  }

  /** Every key of the adapter is some connection's. */
  ghost predicate Owned(cfg: Config, s: State, k: Key) {
    exists c, sid :: k == KeyOf(cfg, c, sid) && Holds(s, c, sid)
  }

  ghost predicate Mirrored(cfg: Config, s: State) {
    && (forall k :: k in s.table && k.adapter == cfg.adapter ==> Owned(cfg, s, k))
    && (forall c, sid :: Holds(s, c, sid) ==> KeyOf(cfg, c, sid) in s.table)
  }

  ghost predicate Good(cfg: Config, s: State) {
    && (forall c :: c in s.conns ==> c < s.next && ConnOk(cfg, s.conns[c]))
    && Mirrored(cfg, s)
    && s.failures == 0
  }

  lemma KeysDiffer(cfg: Config, a: nat, x: Text, b: nat, y: Text)
    ensures KeyOf(cfg, a, x) == KeyOf(cfg, b, y) <==> a == b && x == y
  {
    if EngineSub(a, x) == EngineSub(b, y) { EngineSubInjective(a, x, b, y); }
  }

  /** A key is in the table exactly when its connection holds it. */
  lemma InTableExactly(cfg: Config, s: State, c: nat, sid: Text)
    requires Mirrored(cfg, s)
    ensures KeyOf(cfg, c, sid) in s.table <==> Holds(s, c, sid)
  {
    if KeyOf(cfg, c, sid) in s.table {
      var d, x :| KeyOf(cfg, c, sid) == KeyOf(cfg, d, x) && Holds(s, d, x);
      KeysDiffer(cfg, c, sid, d, x);
    }
  }

  /** Steps that leave the table and what is held alone keep the mirror. */
  lemma MirrorSame(cfg: Config, s: State, t: State)
    requires Mirrored(cfg, s) && OnlyElsewhere(s.table, t.table, cfg.adapter)
    requires forall c, sid :: Holds(s, c, sid) <==> Holds(t, c, sid)
    ensures Mirrored(cfg, t)
  {
    forall k | k in t.table && k.adapter == cfg.adapter ensures Owned(cfg, t, k) {
      assert Owned(cfg, s, k);
      var c, sid :| k == KeyOf(cfg, c, sid) && Holds(s, c, sid);
      assert Holds(t, c, sid);
    }
    forall c, sid | Holds(t, c, sid) ensures KeyOf(cfg, c, sid) in t.table {
      assert Holds(s, c, sid);
      assert KeyOf(cfg, c, sid) in s.table;
    }
  }

  lemma MirrorAdd(cfg: Config, s: State, t: State, c: nat, sid: Text, sub: Subscription)
    requires Mirrored(cfg, s) && t.table == s.table[KeyOf(cfg, c, sid) := sub]
    requires forall d, x :: Holds(t, d, x) <==> Holds(s, d, x) || (d == c && x == sid)
    ensures Mirrored(cfg, t)
  {
    forall k | k in t.table && k.adapter == cfg.adapter ensures Owned(cfg, t, k) {
      if k in s.table {
        assert Owned(cfg, s, k);
        var d, x :| k == KeyOf(cfg, d, x) && Holds(s, d, x);
        assert Holds(t, d, x);
      } else {
        assert k == KeyOf(cfg, c, sid) && Holds(t, c, sid);
      }
    }
    forall d, x | Holds(t, d, x) ensures KeyOf(cfg, d, x) in t.table {
      assert Holds(s, d, x) ==> KeyOf(cfg, d, x) in s.table;
    }
  }

  lemma MirrorRemove(cfg: Config, s: State, t: State, c: nat, sid: Text)
    requires Mirrored(cfg, s) && t.table == s.table - {KeyOf(cfg, c, sid)}
    requires forall d, x :: Holds(t, d, x) <==> Holds(s, d, x) && !(d == c && x == sid)
    ensures Mirrored(cfg, t)
  {
    forall k | k in t.table && k.adapter == cfg.adapter ensures Owned(cfg, t, k) {
      assert Owned(cfg, s, k);
      var d, x :| k == KeyOf(cfg, d, x) && Holds(s, d, x);
      assert Holds(t, d, x);
    }
    forall d, x | Holds(t, d, x) ensures KeyOf(cfg, d, x) in t.table {
      assert Holds(s, d, x);
      KeysDiffer(cfg, c, sid, d, x);
    }
  }

  /** The engine does not have the key yet, so it accepts. */
  lemma SubscribeStep(cfg: Config, s: State, c: nat, tx: nat)
    requires Good(cfg, s) && Enabled(cfg, s, EngineSubscribe(c, tx))
    ensures Mirrored(cfg, After(cfg, s, EngineSubscribe(c, tx))) && After(cfg, s, EngineSubscribe(c, tx)).failures == 0
  {
    var t, p := After(cfg, s, EngineSubscribe(c, tx)), s.conns[c].pending;
    assert ConnOk(cfg, s.conns[c]) && !Holds(s, c, p.sid);
    InTableExactly(cfg, s, c, p.sid);
    assert t.conns == s.conns[c := Conn(s.conns[c].phase, s.conns[c].subs, Inserting(p.sid))];
    forall d: nat, x ensures Holds(t, d, x) <==> Holds(s, d, x) || (d == c && x == p.sid) {
      if d != c { Bystanders(cfg, s, EngineSubscribe(c, tx), d); }
    }
    MirrorAdd(cfg, s, t, c, p.sid, Subscription(p.route, tx));
  }

  lemma UnsubscribeStep(cfg: Config, s: State, c: nat)
    requires Good(cfg, s) && Enabled(cfg, s, EngineUnsubscribe(c))
    ensures Mirrored(cfg, After(cfg, s, EngineUnsubscribe(c)))
  {
    var t, p := After(cfg, s, EngineUnsubscribe(c)), s.conns[c].pending;
    assert ConnOk(cfg, s.conns[c]);
    forall d: nat, x ensures Holds(t, d, x) <==> Holds(s, d, x) && !(d == c && x == p.sid) {
      if d != c { Bystanders(cfg, s, EngineUnsubscribe(c), d); }
    }
    MirrorRemove(cfg, s, t, c, p.sid);
  }

  lemma MirrorStep(cfg: Config, s: State, step: Step)
    requires Good(cfg, s) && Enabled(cfg, s, step)
    ensures Mirrored(cfg, After(cfg, s, step)) && After(cfg, s, step).failures == 0
  {
    var t := After(cfg, s, step);
    match step {
      case EngineSubscribe(c, tx) => SubscribeStep(cfg, s, c, tx);
      case EngineUnsubscribe(c) => UnsubscribeStep(cfg, s, c);
      case _ =>
        forall c: nat, sid ensures Holds(s, c, sid) <==> Holds(t, c, sid) { HeldKept(cfg, s, step, c, sid); }
        MirrorSame(cfg, s, t);
    }
  }

  /** Who a step leaves alone. */
  lemma Bystanders(cfg: Config, s: State, step: Step, c: nat)
    requires Enabled(cfg, s, step) && Actor(step) != Some(c) && (step.Accept? ==> c != s.next)
    ensures var t := After(cfg, s, step);
            s.next <= t.next && (c in t.conns <==> c in s.conns) && (c in s.conns ==> t.conns[c] == s.conns[c])
  {
  }

  lemma HeldWhenInserted(conn: Conn)
    requires conn.pending.Inserting?
    ensures Held(conn.(subs := conn.subs + {conn.pending.sid}, pending := Ready)) == Held(conn)
  {
  }

  lemma HeldWhenTaken(conn: Conn, sid: Text)
    requires conn.pending.Ready? && sid in conn.subs
    ensures Held(conn.(subs := conn.subs - {sid}, pending := Unsubscribing(sid))) == Held(conn)
  {
  }

  /** What a connection holds before and after a step of its own that leaves the engine alone. */
  lemma HeldByActor(cfg: Config, s: State, step: Step, c: nat)
    requires Enabled(cfg, s, step) && Actor(step) == Some(c)
    requires !step.EngineSubscribe? && !step.EngineUnsubscribe? && !step.Gone?
    ensures c in After(cfg, s, step).conns && Held(After(cfg, s, step).conns[c]) == Held(s.conns[c])
  {
    match step {
      case FinishSub(_) => HeldWhenInserted(s.conns[c]);
      case BeginUnsub(_, sid) => if sid in s.conns[c].subs { HeldWhenTaken(s.conns[c], sid); }
      case DrainOne(_, sid) => HeldWhenTaken(s.conns[c], sid);
      case _ =>
    }
  }

  /** Only the two engine steps change what is held. */
  lemma HeldKept(cfg: Config, s: State, step: Step, c: nat, sid: Text)
    requires Good(cfg, s) && Enabled(cfg, s, step) && !step.EngineSubscribe? && !step.EngineUnsubscribe?
    ensures Holds(s, c, sid) <==> Holds(After(cfg, s, step), c, sid)
  {
    if Actor(step) == Some(c) {
      if !step.Gone? { HeldByActor(cfg, s, step, c); }
    } else if step.Accept? && c == s.next {
      assert c !in s.conns;
      assert After(cfg, s, step).conns[c] == Conn(AwaitingInit, {}, Ready);
    } else {
      Bystanders(cfg, s, step, c);
    }
  }

  lemma Counting(subs: set<Text>, sid: Text)
    ensures sid !in subs ==> |subs + {sid}| == |subs| + 1
    ensures sid in subs ==> subs - {sid} + {sid} == subs
  {
  }

  /** The connection an engine call leaves: one more held, or one fewer. */
  lemma ConnCalled(cfg: Config, conn: Conn)
    requires ConnOk(cfg, conn)
    ensures conn.pending.Subscribing? ==>
              ConnOk(cfg, conn.(pending := Inserting(conn.pending.sid))) && ConnOk(cfg, conn.(pending := Ready))
    ensures conn.pending.Unsubscribing? ==> ConnOk(cfg, conn.(pending := Ready))
  {
    if !conn.pending.Ready? {
      Counting(conn.subs, conn.pending.sid);
      if conn.pending.Subscribing? {
        assert Held(conn.(pending := Inserting(conn.pending.sid))) == conn.subs + {conn.pending.sid};
        assert Held(conn.(pending := Ready)) == conn.subs;
      } else if conn.pending.Unsubscribing? {
        assert Held(conn) == conn.subs + {conn.pending.sid} && Held(conn.(pending := Ready)) == conn.subs;
      }
    }
  }

  /** The connection a step of its own leaves, unless the step closes it. */
  lemma ConnStep(cfg: Config, s: State, step: Step, c: nat)
    requires Enabled(cfg, s, step) && Actor(step) == Some(c) && ConnOk(cfg, s.conns[c])
    requires c in After(cfg, s, step).conns
    ensures ConnOk(cfg, After(cfg, s, step).conns[c])
  {
    match step {
      case EngineSubscribe(_, _) => ConnCalled(cfg, s.conns[c]);
      case EngineUnsubscribe(_) => ConnCalled(cfg, s.conns[c]);
      case FinishSub(_) => HeldWhenInserted(s.conns[c]);
      case BeginUnsub(_, sid) => if sid in s.conns[c].subs { HeldWhenTaken(s.conns[c], sid); }
      case DrainOne(_, sid) => HeldWhenTaken(s.conns[c], sid);
      case _ =>
    }
  }

  lemma ConnsStep(cfg: Config, s: State, step: Step)
    requires Good(cfg, s) && Enabled(cfg, s, step)
    ensures var t := After(cfg, s, step);
            forall c :: c in t.conns ==> c < t.next && ConnOk(cfg, t.conns[c])
  {
    var t := After(cfg, s, step);
    forall c | c in t.conns ensures c < t.next && ConnOk(cfg, t.conns[c]) {
      if c in s.conns { assert c < s.next && ConnOk(cfg, s.conns[c]); }
      if Actor(step) == Some(c) {
        ConnStep(cfg, s, step, c);
        assert t.next == s.next;
      } else if step.Accept? && c == s.next {
        assert t.conns[c] == Conn(AwaitingInit, {}, Ready);
      } else {
        Bystanders(cfg, s, step, c);
      }
    }
  }

  lemma {:induction false} RunsAreGood(cfg: Config, states: seq<State>, steps: seq<Step>, i: nat)
    requires Run(cfg, states, steps) && i < |states|
    ensures Good(cfg, states[i])
  {
    if i > 0 {
      RunsAreGood(cfg, states, steps, i - 1);
      MirrorStep(cfg, states[i - 1], steps[i - 1]);
      ConnsStep(cfg, states[i - 1], steps[i - 1]);
    }
  }

  // ---- What holds in every run ---------------------------------------------------------

  /** At handler boundaries the adapter's keys are `{conn_id}:{sid}` over the live maps,
      those and no others. */
  lemma KeysAtBoundaries(cfg: Config, states: seq<State>, steps: seq<Step>, i: nat, name: Text)
    requires Run(cfg, states, steps) && i < |states|
    requires forall c :: c in states[i].conns ==> states[i].conns[c].pending.Ready?
    ensures Key(cfg.adapter, name) in states[i].table <==>
            exists c, sid :: c in states[i].conns && sid in states[i].conns[c].subs && name == EngineSub(c, sid)
  {
    RunsAreGood(cfg, states, steps, i);
    var s := states[i];
    if Key(cfg.adapter, name) in s.table {
      assert Owned(cfg, s, Key(cfg.adapter, name));
      var c, sid :| Key(cfg.adapter, name) == KeyOf(cfg, c, sid) && Holds(s, c, sid);
      assert c in s.conns && sid in s.conns[c].subs && name == EngineSub(c, sid);
    }
    if c, sid :| c in s.conns && sid in s.conns[c].subs && name == EngineSub(c, sid) {
      assert Holds(s, c, sid);
      assert KeyOf(cfg, c, sid) in s.table;
    }
  }

  /** Between boundaries too: nothing in the engine before INIT, never more than the limit,
      and no subscription the engine calls a duplicate. */
  lemma ConnectionBounds(cfg: Config, states: seq<State>, steps: seq<Step>, i: nat, c: nat)
    requires Run(cfg, states, steps) && i < |states| && c in states[i].conns
    ensures |states[i].conns[c].subs| <= cfg.maxSubscriptions && |Held(states[i].conns[c])| <= cfg.maxSubscriptions
    ensures states[i].conns[c].phase.AwaitingInit? ==> forall sid :: KeyOf(cfg, c, sid) !in states[i].table
    ensures states[i].failures == 0
  {
    RunsAreGood(cfg, states, steps, i);
    var s := states[i];
    assert ConnOk(cfg, s.conns[c]);
    SmallerSet(s.conns[c].subs, Held(s.conns[c]));
    if s.conns[c].phase.AwaitingInit? {
      forall sid ensures KeyOf(cfg, c, sid) !in s.table { InTableExactly(cfg, s, c, sid); }
    }
  }

  lemma {:induction false} SmallerSet<T>(a: set<T>, b: set<T>)
    requires a <= b
    ensures |a| <= |b|
  {
    if a != {} {
      var x :| x in a;
      SmallerSet(a - {x}, b - {x});
    }
  }

  function Actor(step: Step): Option<nat> {
    match step
    case Accept => None
    case Elsewhere(_) => None
    case _ => Some(step.conn)
  }

  /** A connection's steps touch no other connection's keys and no other adapter's. */
  lemma OnlyOwnKeys(cfg: Config, s: State, step: Step)
    requires Enabled(cfg, s, step) && Actor(step).Some?
    ensures OthersKept(s.table, After(cfg, s, step).table, cfg.adapter, Actor(step).value)
  {
    if step.EngineSubscribe? || step.EngineUnsubscribe? {
      assert NamedFor(KeyOf(cfg, step.conn, s.conns[step.conn].pending.sid), cfg.adapter, step.conn);
    }
  }

  lemma {:induction false} NumbersGrow(cfg: Config, states: seq<State>, steps: seq<Step>, i: nat, j: nat, c: nat)
    requires Run(cfg, states, steps) && i <= j < |states| && c < states[i].next && c !in states[i].conns
    ensures c < states[j].next && c !in states[j].conns
  {
    if i < j {
      NumbersGrow(cfg, states, steps, i, j - 1, c);
      assert states[j] == After(cfg, states[j - 1], steps[j - 1]);
    }
  }

  /** Once a connection is gone none of its keys is left, then or ever after: its number is
      not used again. */
  lemma GoneForGood(cfg: Config, states: seq<State>, steps: seq<Step>, i: nat, j: nat, c: nat, sid: Text)
    requires Run(cfg, states, steps) && i < j < |states| && steps[i] == Gone(c)
    ensures KeyOf(cfg, c, sid) !in states[j].table
  {
    RunsAreGood(cfg, states, steps, i);
    assert states[i + 1] == After(cfg, states[i], steps[i]);
    NumbersGrow(cfg, states, steps, i + 1, j, c);
    RunsAreGood(cfg, states, steps, j);
    InTableExactly(cfg, states[j], c, sid);
  }

  // ---- What the entries say ------------------------------------------------------------

  /** A SUB that nothing interrupts: refused without a trace, or the three steps of its handler
      leave one new entry and one new `sid`, as `Session.HandleText` promises. */
  lemma SubAlone(cfg: Config, s: State, c: nat, sid: Text, route: Route, tx: nat)
    requires Good(cfg, s) && At(s, c, Active)
    ensures var conn, begun := s.conns[c], After(cfg, s, BeginSub(c, sid, route));
            if sid in conn.subs || |conn.subs| >= cfg.maxSubscriptions then begun == s
            else
              && Enabled(cfg, begun, EngineSubscribe(c, tx))
              && var called := After(cfg, begun, EngineSubscribe(c, tx));
              && Enabled(cfg, called, FinishSub(c))
              && After(cfg, called, FinishSub(c)) ==
                 Set(s, c, conn.(subs := conn.subs + {sid})).(table := s.table[KeyOf(cfg, c, sid) := Subscription(route, tx)])
  {
    InTableExactly(cfg, s, c, sid);
    var conn := s.conns[c];
    if sid !in conn.subs && |conn.subs| < cfg.maxSubscriptions {
      var begun := Set(s, c, conn.(pending := Subscribing(sid, route)));
      var table := s.table[KeyOf(cfg, c, sid) := Subscription(route, tx)];
      var called := Set(s, c, conn.(pending := Inserting(sid))).(table := table);
      assert begun == After(cfg, s, BeginSub(c, sid, route));
      SetTwice(begun, s, c, conn.(pending := Subscribing(sid, route)), conn.(pending := Inserting(sid)));
      assert called == After(cfg, begun, EngineSubscribe(c, tx));
      SetTwice(called, s.(table := table), c, conn.(pending := Inserting(sid)), conn.(subs := conn.subs + {sid}));
    }
  }

  lemma SetTwice(t: State, s: State, c: nat, a: Conn, b: Conn)
    requires t == Set(s, c, a)
    ensures Set(t, c, b) == Set(s, c, b)
  {
  }

  /** An UNSUB that nothing interrupts. */
  lemma UnsubAlone(cfg: Config, s: State, c: nat, sid: Text)
    requires At(s, c, Active)
    ensures var conn, begun := s.conns[c], After(cfg, s, BeginUnsub(c, sid));
            if sid !in conn.subs then begun == s
            else
              && Enabled(cfg, begun, EngineUnsubscribe(c))
              && After(cfg, begun, EngineUnsubscribe(c)) ==
                 Set(s, c, conn.(subs := conn.subs - {sid})).(table := s.table - {KeyOf(cfg, c, sid)})
  {
  }

  /** A subscription about to be made is the one the client asked for. */
  lemma {:induction false} PendingWasAsked(cfg: Config, states: seq<State>, steps: seq<Step>, i: nat, c: nat) returns (j: nat)
    requires Run(cfg, states, steps) && i < |states|
    requires c in states[i].conns && states[i].conns[c].pending.Subscribing?
    ensures j < i && steps[j] == BeginSub(c, states[i].conns[c].pending.sid, states[i].conns[c].pending.route)
  {
    var s, step := states[i - 1], steps[i - 1];
    assert states[i] == After(cfg, s, step);
    if step == BeginSub(c, states[i].conns[c].pending.sid, states[i].conns[c].pending.route) {
      j := i - 1;
    } else {
      if Actor(step) != Some(c) { Bystanders(cfg, s, step, c); }
      j := PendingWasAsked(cfg, states, steps, i - 1, c);
    }
  }

  /** The entry of a key is what step `k` put there, and has been since. */
  ghost predicate StandsSince(cfg: Config, states: seq<State>, steps: seq<Step>, k: nat, i: nat, c: nat, sid: Text, sub: Subscription) {
    && k < i < |states| == |steps| + 1
    && steps[k] == EngineSubscribe(c, sub.tx)
    && KeyOf(cfg, c, sid) !in states[k].table
    && forall l :: k < l <= i ==> KeyOf(cfg, c, sid) in states[l].table && states[l].table[KeyOf(cfg, c, sid)] == sub
  }

  /** In every run an entry routes what its client asked for in a SUB of that `sid`, into the
      channel made for it, and stands unchanged from then on. */
  lemma {:induction false} EntriesWereAsked(cfg: Config, states: seq<State>, steps: seq<Step>, i: nat, c: nat, sid: Text)
      returns (j: nat, k: nat)
    requires Run(cfg, states, steps) && i < |states| && KeyOf(cfg, c, sid) in states[i].table
    ensures j < k < |steps| && steps[j] == BeginSub(c, sid, states[i].table[KeyOf(cfg, c, sid)].route)
    ensures StandsSince(cfg, states, steps, k, i, c, sid, states[i].table[KeyOf(cfg, c, sid)])
  {
    var key, s, step := KeyOf(cfg, c, sid), states[i - 1], steps[i - 1];
    assert states[i] == After(cfg, s, step);
    if key in s.table {
      EntryKept(cfg, s, step, key);
      j, k := EntriesWereAsked(cfg, states, steps, i - 1, c, sid);
    } else {
      EntryMade(cfg, s, step, c, sid);
      k := i - 1;
      j := PendingWasAsked(cfg, states, steps, i - 1, c);
    }
  }

  lemma EntryKept(cfg: Config, s: State, step: Step, key: Key)
    requires Enabled(cfg, s, step) && key.adapter == cfg.adapter && key in s.table && key in After(cfg, s, step).table
    ensures After(cfg, s, step).table[key] == s.table[key]
  {
  }

  /** Only an engine call makes an entry, from what is pending. */
  lemma EntryMade(cfg: Config, s: State, step: Step, c: nat, sid: Text)
    requires Enabled(cfg, s, step) && KeyOf(cfg, c, sid) !in s.table && KeyOf(cfg, c, sid) in After(cfg, s, step).table
    ensures var sub := After(cfg, s, step).table[KeyOf(cfg, c, sid)];
            step == EngineSubscribe(c, sub.tx) && c in s.conns && s.conns[c].pending == Subscribing(sid, sub.route)
  {
    if step.EngineSubscribe? { KeysDiffer(cfg, step.conn, s.conns[step.conn].pending.sid, c, sid); }
  }
}
