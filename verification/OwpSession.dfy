/** One OWP connection and its subscriptions on the shared engine
    (crates/oa-gateway-owp/src/session.rs). Frames are already parsed; publishing is the
    engine's business. */
module OwpSession {
  import opened Wrappers
  import opened Utf8
  import opened Routing
  import opened EngineState
  import Decimal

  const COLON: byte := 58

  /** The engine's name for a client's `sid`: `{conn_id}:{sid}`. */
  function EngineSub(conn: nat, sid: Text): Text {
    Decimal.Print(conn) + [COLON] + sid
  }

  /** No two connections share a name, whatever the client calls its subscriptions. */
  lemma EngineSubInjective(a: nat, x: Text, b: nat, y: Text)
    requires EngineSub(a, x) == EngineSub(b, y)
    ensures a == b && x == y
  {
    var d, e := Decimal.Print(a), Decimal.Print(b);
    var s := EngineSub(a, x);
    assert s[|d|] == COLON && s[|e|] == COLON;
    assert forall i :: 0 <= i < |d| ==> s[i] == d[i] && Decimal.IsDigit(d[i]);
    assert forall i :: 0 <= i < |e| ==> s[i] == e[i] && Decimal.IsDigit(e[i]);
    assert |d| == |e|;
    assert d == s[..|d|] && e == s[..|e|];
    Decimal.ValueOfPrint(a);
    Decimal.ValueOfPrint(b);
    assert x == s[|d| + 1..] && y == s[|e| + 1..];
  }

  ghost predicate NamedFor(k: Key, adapter: Text, conn: nat) {
    k.adapter == adapter && exists sid :: k.sub == EngineSub(conn, sid)
  }

  /** The engine's table where it concerns other connections and other adapters. */
  ghost predicate OthersKept(before: Table, after: Table, adapter: Text, conn: nat) {
    forall k :: !NamedFor(k, adapter, conn) ==> (k in before <==> k in after) && (k in before ==> before[k] == after[k])
  }

  /** A client frame as parsed: whether an INIT is accepted and whether a PUB can be published
      is decided elsewhere. */
  datatype ClientOp =
    | Garbled
    | Init(accepted: bool, verbose: bool)
    | Pub(valid: bool)
    | Sub(sid: Text, messageName: Text, topic: Text)
    | Unsub(sid: Text)

  datatype OwpError = IllegalState | IllegalArgument | InternalError | InvalidMessage | Refused

  datatype ServerOp = Fine | Info | Error(error: OwpError)

  class Session {
    const adapter: Text
    const conn: nat
    const maxSubscriptions: nat
    const engine: Engine
    var active: bool
    var verbose: bool
    var subs: map<Text, Text>
    var out: seq<ServerOp>

    /** The local map mirrors this connection's part of the engine's table. */
    ghost predicate Valid()
      reads this`active, this`subs, engine
    {
      && engine.Valid()
      && (!active ==> subs == map[])
      && |subs| <= maxSubscriptions
      && (forall sid :: sid in subs ==> subs[sid] == EngineSub(conn, sid))
      && (forall sid :: Key(adapter, EngineSub(conn, sid)) in engine.byKey <==> sid in subs)
    }

    /** A connection number the engine has not seen. */
    constructor (adapter: Text, conn: nat, maxSubscriptions: nat, engine: Engine)
      requires engine.Valid() && forall k :: k in engine.byKey ==> !NamedFor(k, adapter, conn)
      ensures this.adapter == adapter && this.conn == conn && this.maxSubscriptions == maxSubscriptions && this.engine == engine
      ensures Valid() && !active && subs == map[] && out == []
    {
      this.adapter, this.conn, this.maxSubscriptions, this.engine := adapter, conn, maxSubscriptions, engine;
      active, verbose, subs, out := false, true, map[], [];
      new;
      forall sid ensures Key(adapter, EngineSub(conn, sid)) !in engine.byKey {
        assert NamedFor(Key(adapter, EngineSub(conn, sid)), adapter, conn);
      }
    }

    method Send(op: ServerOp)
      modifies this`out
      ensures out == old(out) + [op]
    {
      out := out + [op];
    }

    /** `handle_text`: a frame that does not parse is answered and no more; of the others the
        first has to be INIT and no later one may be. */
    method HandleText(op: ClientOp, tx: nat) returns (closing: bool)
      requires Valid()
      modifies this`active, this`verbose, this`subs, this`out, engine`byKey, engine`byAdapter, engine`exact, engine`wildcards
      ensures Valid() && OthersKept(old(engine.byKey), engine.byKey, adapter, conn)
      ensures active == (old(active) || (op.Init? && op.accepted))
      ensures verbose == if !old(active) && active then op.verbose else old(verbose)
      ensures closing == (!op.Garbled? && (old(active) == op.Init? || (op.Init? && !op.accepted)))
      ensures !(old(active) && (op.Sub? || op.Unsub?)) ==> subs == old(subs) && engine.byKey == old(engine.byKey)
      ensures op.Garbled? ==> out == old(out) + [Error(IllegalArgument)]
      ensures !op.Garbled? && old(active) == op.Init? ==> out == old(out) + [Error(IllegalState)]
      ensures op.Init? && !old(active) ==> out == old(out) + if !op.accepted then [Error(Refused)] else if verbose then [Fine, Info] else [Info]
      ensures op.Pub? && old(active) ==> out == old(out) + if !op.valid then [Error(InvalidMessage)] else if verbose then [Fine] else []
      ensures op.Sub? && old(active) && (op.sid in old(subs) || |old(subs)| >= maxSubscriptions) ==>
                && subs == old(subs) && engine.byKey == old(engine.byKey)
                && out == old(out) + [Error(if op.sid in subs then IllegalArgument else IllegalState)]
      ensures op.Sub? && old(active) && op.sid !in old(subs) && |old(subs)| < maxSubscriptions ==>
                && subs == old(subs)[op.sid := EngineSub(conn, op.sid)]
                && engine.byKey == old(engine.byKey)[
                     Key(adapter, EngineSub(conn, op.sid)) := Subscription(Route(op.topic, Some(op.messageName)), tx)]
                && out == old(out) + if verbose then [Fine] else []
      ensures op.Unsub? && old(active) ==>
                && subs == old(subs) - {op.sid}
                && engine.byKey == old(engine.byKey) - {Key(adapter, EngineSub(conn, op.sid))}
                && out == old(out) + if op.sid !in old(subs) then [Error(IllegalArgument)] else if verbose then [Fine] else []
    {
      if op.Garbled? {
        Send(Error(IllegalArgument));
        return false;
      }
      if !active {
        if op.Init? {
          closing := HandleInit(op);
        } else {
          Send(Error(IllegalState));
          closing := true;
        }
      } else {
        closing := op.Init?;
        match op {
          case Init(_, _) => Send(Error(IllegalState));
          case Pub(valid) => HandlePub(valid);
          case Sub(sid, messageName, topic) => HandleSub(sid, messageName, topic, tx);
          case Unsub(sid) => HandleUnsub(sid);
        }
      }
    }

    /** The replies of `handle_pub`. */
    method HandlePub(valid: bool)
      modifies this`out
      ensures out == old(out) + if !valid then [Error(InvalidMessage)] else if verbose then [Fine] else []
    {
      if !valid { Send(Error(InvalidMessage)); } else if verbose { Send(Fine); }
    }

    method HandleInit(op: ClientOp) returns (closing: bool)
      requires op.Init? && !active && Valid()
      modifies this`active, this`verbose, this`out
      ensures Valid() && closing == !op.accepted && active == op.accepted
      ensures verbose == if op.accepted then op.verbose else old(verbose)
      ensures out == old(out) + if !op.accepted then [Error(Refused)] else if op.verbose then [Fine, Info] else [Info]
    {
      if !op.accepted {
        Send(Error(Refused));
        return true;
      }
      if op.verbose { Send(Fine); }
      Send(Info);
      active, verbose := true, op.verbose;
      return false;
    }

    /** A new `sid` under the limit is subscribed; the engine never finds it a duplicate. */
    method HandleSub(sid: Text, messageName: Text, topic: Text, tx: nat)
      requires Valid() && active
      modifies this`subs, this`out, engine`byKey, engine`byAdapter, engine`exact, engine`wildcards
      ensures Valid()
      ensures var taken := sid in old(subs);
              var full := |old(subs)| >= maxSubscriptions;
              var key := Key(adapter, EngineSub(conn, sid));
              if taken then out == old(out) + [Error(IllegalArgument)] && subs == old(subs) && engine.byKey == old(engine.byKey)
              else if full then out == old(out) + [Error(IllegalState)] && subs == old(subs) && engine.byKey == old(engine.byKey)
              else
                && out == old(out) + (if verbose then [Fine] else [])
                && subs == old(subs)[sid := key.sub]
                && engine.byKey == old(engine.byKey)[key := Subscription(Route(topic, Some(messageName)), tx)]
      ensures OthersKept(old(engine.byKey), engine.byKey, adapter, conn)
    {
      if sid in subs {
        Send(Error(IllegalArgument));
        return;
      }
      if |subs| >= maxSubscriptions {
        Send(Error(IllegalState));
        return;
      }
      var name := EngineSub(conn, sid);
      var r := engine.Subscribe(adapter, name, Route(topic, Some(messageName)), tx);
      if r.Err? {
        // Where the source would reply Internal-Error.
        assert false;
      }
      assert NamedFor(Key(adapter, name), adapter, conn);
      subs := subs[sid := name];
      forall x ensures Key(adapter, EngineSub(conn, x)) in engine.byKey <==> x in subs {
        if EngineSub(conn, x) == name { EngineSubInjective(conn, x, conn, sid); }
      }
      if verbose { Send(Fine); }
    }

    method HandleUnsub(sid: Text)
      requires Valid() && active
      modifies this`subs, this`out, engine`byKey, engine`byAdapter, engine`exact, engine`wildcards
      ensures Valid() && subs == old(subs) - {sid}
      ensures engine.byKey == old(engine.byKey) - {Key(adapter, EngineSub(conn, sid))}
      ensures out == old(out) + if sid !in old(subs) then [Error(IllegalArgument)] else if verbose then [Fine] else []
      ensures OthersKept(old(engine.byKey), engine.byKey, adapter, conn)
    {
      assert Key(adapter, EngineSub(conn, sid)) in engine.byKey <==> sid in subs;
      if sid in subs {
        DropSub(sid);
        if verbose { Send(Fine); }
      } else {
        NothingThere(subs, sid, engine.byKey, Key(adapter, EngineSub(conn, sid)));
        Send(Error(IllegalArgument));
      }
    }

    /** Out of the map, then out of the engine. */
    method DropSub(sid: Text)
      requires Valid() && sid in subs
      modifies this`subs, engine`byKey, engine`byAdapter, engine`exact, engine`wildcards
      ensures Valid() && subs == old(subs) - {sid} && |subs| == |old(subs)| - 1
      ensures engine.byKey == old(engine.byKey) - {Key(adapter, EngineSub(conn, sid))}
      ensures OthersKept(old(engine.byKey), engine.byKey, adapter, conn)
    {
      var name := subs[sid];
      subs := subs - {sid};
      var _ := engine.Unsubscribe(adapter, name);
      StillMirrored(old(subs), subs, old(engine.byKey), engine.byKey, sid);
      FewerSubs(old(subs), sid);
    }

    lemma StillMirrored(before: map<Text, Text>, after: map<Text, Text>, t: Table, u: Table, sid: Text)
      requires forall x :: Key(adapter, EngineSub(conn, x)) in t <==> x in before
      requires after == before - {sid} && u == t - {Key(adapter, EngineSub(conn, sid))}
      ensures forall x :: Key(adapter, EngineSub(conn, x)) in u <==> x in after
      ensures OthersKept(t, u, adapter, conn)
    {
      forall x ensures Key(adapter, EngineSub(conn, x)) in u <==> x in after {
        if EngineSub(conn, x) == EngineSub(conn, sid) { EngineSubInjective(conn, x, conn, sid); }
      }
      assert NamedFor(Key(adapter, EngineSub(conn, sid)), adapter, conn);
    }

    /** What runs after the loop: every subscription of this connection goes, and no other. */
    method Drain()
      requires Valid()
      modifies this`subs, engine`byKey, engine`byAdapter, engine`exact, engine`wildcards
      ensures Valid() && subs == map[]
      ensures forall k :: k in engine.byKey ==> !NamedFor(k, adapter, conn)
      ensures OthersKept(old(engine.byKey), engine.byKey, adapter, conn)
    {
      while subs != map[]
        invariant Valid() && OthersKept(old(engine.byKey), engine.byKey, adapter, conn)
        decreases |subs|
      {
        var sid :| sid in subs;
        DropSub(sid);
      }
    }
  }

  lemma NothingThere(subs: map<Text, Text>, sid: Text, t: Table, k: Key)
    requires sid !in subs && k !in t
    ensures subs - {sid} == subs && t - {k} == t
  {
  }

  lemma FewerSubs(m: map<Text, Text>, sid: Text)
    requires sid in m
    ensures |m - {sid}| == |m| - 1
  {
    assert (m - {sid}).Keys == m.Keys - {sid};
  }
}
