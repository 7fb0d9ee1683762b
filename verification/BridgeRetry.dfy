/** The retry loop of a bus adapter and the engine subscriptions it leaves behind
    (`serve_inner` and `session` in crates/oa-gateway-stomp/src/adapter.rs, `run` and `serve`
    in crates/oa-gateway-dds/src/adapter.rs, `after_join` in
    crates/oa-gateway-adapter/src/supervise.rs). */
module BridgeRetry {
  import opened Wrappers
  import opened Utf8
  import opened Routing
  import opened EngineState
  import Decimal

  datatype OnPanic = Abort | Reconnect

  /** `prefix` is `stomp-out-` or `dds-`. */
  datatype Config = Config(adapter: Text, prefix: Text, topics: seq<Text>, reconnect: bool, onPanic: OnPanic)

  /** How a session task ended. */
  datatype Ending = Clean | Failed | Panicked | Cancelled

  datatype Decision = ReturnOk | ReturnErr | Retry

  /** `after_join` */
  function AfterJoin(e: Ending, reconnect: bool, onPanic: OnPanic): Decision {
    match e
    case Clean => if reconnect then Retry else ReturnOk
    case Failed => if reconnect then Retry else ReturnErr
    case Panicked => if onPanic.Reconnect? && reconnect then Retry else ReturnErr
    case Cancelled => ReturnOk
  }

  function KeyOf(cfg: Config, i: nat): Key {
    Key(cfg.adapter, cfg.prefix + Decimal.Print(i))
  }

  lemma KeysDiffer(cfg: Config, i: nat, j: nat)
    ensures KeyOf(cfg, i) == KeyOf(cfg, j) <==> i == j
  {
    if KeyOf(cfg, i) == KeyOf(cfg, j) {
      var a, b := cfg.prefix + Decimal.Print(i), cfg.prefix + Decimal.Print(j);
      assert a[|cfg.prefix|..] == Decimal.Print(i) && b[|cfg.prefix|..] == Decimal.Print(j);
      Decimal.ValueOfPrint(i);
      Decimal.ValueOfPrint(j);
    }
  }

  /** The adapter's subscriptions are those for its first `n` topics, wildcards all. */
  ghost predicate Exactly(cfg: Config, t: Table, n: nat)
    requires n <= |cfg.topics|
  {
    && (forall k :: k in t && k.adapter == cfg.adapter ==> exists i :: 0 <= i < n && k == KeyOf(cfg, i))
    && (forall i :: 0 <= i < n ==> KeyOf(cfg, i) in t && t[KeyOf(cfg, i)].route == Route(cfg.topics[i], None))
  }

  /** Every subscription of the adapter is one it is configured for. */
  ghost predicate Within(cfg: Config, t: Table) {
    forall k :: k in t && k.adapter == cfg.adapter ==>
      exists i :: 0 <= i < |cfg.topics| && k == KeyOf(cfg, i) && t[k].route == Route(cfg.topics[i], None)
  }

  /** Nothing changed but this adapter's part. */
  ghost predicate OthersKept(before: Table, after: Table, adapter: Text) {
    forall k: Key :: k.adapter != adapter ==> (k in before <==> k in after) && (k in before ==> after[k] == before[k])
  }

  lemma ExactlyIsWithin(cfg: Config, t: Table, n: nat)
    requires n <= |cfg.topics| && Exactly(cfg, t, n)
    ensures Within(cfg, t)
  {
    forall k | k in t && k.adapter == cfg.adapter
      ensures exists i :: 0 <= i < |cfg.topics| && k == KeyOf(cfg, i) && t[k].route == Route(cfg.topics[i], None)
    {
      var i :| 0 <= i < n && k == KeyOf(cfg, i);
    }
  }

  lemma ExactlyMore(cfg: Config, t: Table, n: nat, tx: nat)
    requires n < |cfg.topics| && Exactly(cfg, t, n)
    ensures KeyOf(cfg, n) !in t
    ensures Exactly(cfg, t[KeyOf(cfg, n) := Subscription(Route(cfg.topics[n], None), tx)], n + 1)
  {
    if KeyOf(cfg, n) in t {
      var i :| 0 <= i < n && KeyOf(cfg, n) == KeyOf(cfg, i);
      KeysDiffer(cfg, i, n);
    }
    var u := t[KeyOf(cfg, n) := Subscription(Route(cfg.topics[n], None), tx)];
    forall i | 0 <= i < n + 1
      ensures KeyOf(cfg, i) in u && u[KeyOf(cfg, i)].route == Route(cfg.topics[i], None)
    {
      KeysDiffer(cfg, i, n);
    }
    forall k | k in u && k.adapter == cfg.adapter
      ensures exists i :: 0 <= i < n + 1 && k == KeyOf(cfg, i)
    {
      if k != KeyOf(cfg, n) {
        var i :| 0 <= i < n && k == KeyOf(cfg, i);
      }
    }
  }

  // ---- One session ---------------------------------------------------------------------

  /** What a session meets on the way: whether the connection comes up, which SUBSCRIBE
      frame is the first to fail, and how the drive loop returns. */
  datatype Fate = Fate(connects: bool, failsAt: Option<nat>, driveOk: bool)

  /** `session`, when nothing panics. */
  method Session(cfg: Config, engine: Engine, tx: nat, fate: Fate) returns (ok: bool, ghost driven: Option<Table>)
    requires engine.Valid()
    modifies engine`byKey, engine`byAdapter, engine`exact, engine`wildcards
    ensures engine.Valid() && (fate.connects ==> Within(cfg, engine.byKey)) && OthersKept(old(engine.byKey), engine.byKey, cfg.adapter)
    ensures !fate.connects ==> !ok && driven.None? && engine.byKey == old(engine.byKey)
    ensures fate.connects && (fate.failsAt.None? || fate.failsAt.value >= |cfg.topics|) ==>
              && ok == fate.driveOk
              && driven.Some? && Exactly(cfg, driven.value, |cfg.topics|)
              && Exactly(cfg, engine.byKey, 0)
    ensures fate.connects && fate.failsAt.Some? && fate.failsAt.value < |cfg.topics| ==>
              !ok && driven.None? && Exactly(cfg, engine.byKey, fate.failsAt.value)
  {
    driven := None;
    if !fate.connects { return false, None; }
    var _ := engine.DropAdapter(cfg.adapter);
    DroppedIsEmpty(cfg, old(engine.byKey));
    var n := SubscribeAll(cfg, engine, tx, fate.failsAt);
    ExactlyIsWithin(cfg, engine.byKey, n);
    if n < |cfg.topics| { return false, None; }
    driven := Some(engine.byKey);
    ok := fate.driveOk;
    DroppedIsEmpty(cfg, engine.byKey);
    var _ := engine.DropAdapter(cfg.adapter);
    ExactlyIsWithin(cfg, engine.byKey, 0);
  }

  /** The loop over the topics, up to the first SUBSCRIBE frame that cannot be written. */
  method SubscribeAll(cfg: Config, engine: Engine, tx: nat, failsAt: Option<nat>) returns (n: nat)
    requires engine.Valid() && Exactly(cfg, engine.byKey, 0)
    modifies engine`byKey, engine`byAdapter, engine`exact, engine`wildcards
    ensures n == if failsAt.Some? && failsAt.value < |cfg.topics| then failsAt.value else |cfg.topics|
    ensures engine.Valid() && Exactly(cfg, engine.byKey, n) && OthersKept(old(engine.byKey), engine.byKey, cfg.adapter)
  {
    for i := 0 to |cfg.topics|
      invariant engine.Valid() && Exactly(cfg, engine.byKey, i) && OthersKept(old(engine.byKey), engine.byKey, cfg.adapter)
      invariant failsAt.Some? ==> i <= failsAt.value
    {
      if failsAt == Some(i) { return i; }
      ExactlyMore(cfg, engine.byKey, i, tx);
      var r := engine.Subscribe(cfg.adapter, cfg.prefix + Decimal.Print(i), Route(cfg.topics[i], None), tx);
      if r.Err? {
        // The duplicate that would fail the session.
        assert false;
      }
    }
    return |cfg.topics|;
  }

  lemma DroppedIsEmpty(cfg: Config, t: Table)
    ensures Exactly(cfg, WithoutAdapter(t, cfg.adapter), 0)
    ensures OthersKept(t, WithoutAdapter(t, cfg.adapter), cfg.adapter)
  {
  }

  // ---- The loop, step by step ----------------------------------------------------------

  datatype Phase =
    | Waiting                    // at the loop head, or asleep
    | Connecting
    | Clearing                   // connected, old subscriptions not dropped yet
    | Subscribing(next: nat)
    | Driving
    | Closing(ok: bool)          // the drive loop returned
    | Joined(ending: Ending)
    | Stopped(ok: bool)

  /** `duplicates` counts refused subscriptions. */
  datatype State = State(table: Table, phase: Phase, shutdown: bool, duplicates: nat)

  datatype Step =
    | Shutdown
    | Start
    | Connect
    | Clear
    | SubscribeNext(tx: nat)
    | Drive
    | DriveReturns(ok: bool)
    | CleanUp
    | Fail                       // connect, or writing a SUBSCRIBE frame
    | Panic
    | Cancel
    | Decide
    | Elsewhere(table: Table)

  predicate InSession(p: Phase) {
    p.Connecting? || p.Clearing? || p.Subscribing? || p.Driving? || p.Closing?
  }

  ghost predicate Enabled(cfg: Config, s: State, step: Step) {
    match step
    case Shutdown => true
    case Start => s.phase.Waiting?
    case Connect => s.phase.Connecting?
    case Clear => s.phase.Clearing?
    case SubscribeNext(_) => s.phase.Subscribing? && s.phase.next < |cfg.topics|
    case Drive => s.phase.Subscribing? && s.phase.next == |cfg.topics|
    case DriveReturns(_) => s.phase.Driving?
    case CleanUp => s.phase.Closing?
    case Fail => s.phase.Connecting? || (s.phase.Subscribing? && s.phase.next < |cfg.topics|)
    case Panic => InSession(s.phase)
    case Cancel => InSession(s.phase)
    case Decide => s.phase.Joined?
    case Elsewhere(table) =>
      && (forall k :: k in s.table && k.adapter == cfg.adapter ==> k in table && table[k] == s.table[k])
      && (forall k :: k in table && k.adapter == cfg.adapter ==> k in s.table)
  }

  ghost function After(cfg: Config, s: State, step: Step): State
    requires Enabled(cfg, s, step)
  {
    match step
    case Shutdown => s.(shutdown := true)
    case Start => s.(phase := if s.shutdown then Stopped(true) else Connecting)
    case Connect => s.(phase := Clearing)
    case Clear => s.(phase := Subscribing(0), table := WithoutAdapter(s.table, cfg.adapter))
    case SubscribeNext(tx) =>
      var i := s.phase.next;
      if KeyOf(cfg, i) in s.table then s.(phase := Joined(Failed), duplicates := s.duplicates + 1)
      else s.(phase := Subscribing(i + 1), table := s.table[KeyOf(cfg, i) := Subscription(Route(cfg.topics[i], None), tx)])
    case Drive => s.(phase := Driving)
    case DriveReturns(ok) => s.(phase := Closing(ok))
    case CleanUp =>
      s.(phase := Joined(if s.phase.ok then Clean else Failed), table := WithoutAdapter(s.table, cfg.adapter))
    case Fail => s.(phase := Joined(Failed))
    case Panic => s.(phase := Joined(Panicked))
    case Cancel => s.(phase := Joined(Cancelled))
    case Decide =>
      (match AfterJoin(s.phase.ending, cfg.reconnect, cfg.onPanic)
       case ReturnOk => s.(phase := Stopped(true))
       case ReturnErr => s.(phase := Stopped(false))
       case Retry => s.(phase := if s.shutdown then Stopped(true) else Waiting))
    case Elsewhere(table) => s.(table := table)
  }

  ghost predicate Begins(cfg: Config, s: State) {
    && (forall k :: k in s.table ==> k.adapter != cfg.adapter)
    && s.phase.Waiting? && s.duplicates == 0
  }

  ghost predicate Run(cfg: Config, states: seq<State>, steps: seq<Step>) {
    && |states| == |steps| + 1
    && Begins(cfg, states[0])
    && forall i :: 0 <= i < |steps| ==> Enabled(cfg, states[i], steps[i]) && states[i + 1] == After(cfg, states[i], steps[i])
  }

  /** What is subscribed is what some number of rounds of the topic loop subscribes. */
  ghost predicate APrefix(cfg: Config, t: Table) {
    exists n: nat :: n <= |cfg.topics| && Exactly(cfg, t, n)
  }

  ghost predicate Good(cfg: Config, s: State) {
    && APrefix(cfg, s.table)
    && s.duplicates == 0
    && (s.phase.Subscribing? ==> s.phase.next <= |cfg.topics| && Exactly(cfg, s.table, s.phase.next))
    && (s.phase.Driving? || s.phase.Closing? ==> Exactly(cfg, s.table, |cfg.topics|))
  }

  lemma ElsewhereKeeps(cfg: Config, t: Table, u: Table, n: nat)
    requires n <= |cfg.topics|
    requires forall k :: k in t && k.adapter == cfg.adapter ==> k in u && u[k] == t[k]
    requires forall k :: k in u && k.adapter == cfg.adapter ==> k in t
    ensures Exactly(cfg, t, n) ==> Exactly(cfg, u, n)
  {
    assert forall i: nat :: KeyOf(cfg, i).adapter == cfg.adapter;
  }

  lemma GoodStep(cfg: Config, s: State, step: Step)
    requires Good(cfg, s) && Enabled(cfg, s, step)
    ensures Good(cfg, After(cfg, s, step))
  {
    match step
    case Clear => DroppedIsEmpty(cfg, s.table);
    case CleanUp => DroppedIsEmpty(cfg, s.table);
    case SubscribeNext(tx) => ExactlyMore(cfg, s.table, s.phase.next, tx);
    case Elsewhere(table) =>
      var n: nat :| n <= |cfg.topics| && Exactly(cfg, s.table, n);
      ElsewhereKeeps(cfg, s.table, table, n);
      ElsewhereKeeps(cfg, s.table, table, |cfg.topics|);
      if s.phase.Subscribing? { ElsewhereKeeps(cfg, s.table, table, s.phase.next); }
    case _ =>
  }

  lemma {:induction false} RunsAreGood(cfg: Config, states: seq<State>, steps: seq<Step>, i: nat)
    requires Run(cfg, states, steps) && i < |states|
    ensures Good(cfg, states[i])
  {
    if i > 0 {
      RunsAreGood(cfg, states, steps, i - 1);
      RunStep(cfg, states, steps, i - 1);
      GoodStep(cfg, states[i - 1], steps[i - 1]);
    } else {
      assert Exactly(cfg, states[0].table, 0);
    }
  }

  // ---- What holds in every run ---------------------------------------------------------

  /** Whatever fails or panics: the adapter never has a subscription it is not configured
      for, has those for its first topics up to some point, exactly all while the drive loop
      runs, and never meets a duplicate. */
  lemma SubscriptionsInEveryRun(cfg: Config, states: seq<State>, steps: seq<Step>, i: nat)
    requires Run(cfg, states, steps) && i < |states|
    ensures Within(cfg, states[i].table) && APrefix(cfg, states[i].table) && states[i].duplicates == 0
    ensures states[i].phase.Driving? ==> Exactly(cfg, states[i].table, |cfg.topics|)
  {
    RunsAreGood(cfg, states, steps, i);
    var n: nat :| n <= |cfg.topics| && Exactly(cfg, states[i].table, n);
    ExactlyIsWithin(cfg, states[i].table, n);
  }

  lemma RunStep(cfg: Config, states: seq<State>, steps: seq<Step>, i: nat)
    requires Run(cfg, states, steps) && i < |steps|
    ensures Enabled(cfg, states[i], steps[i]) && states[i + 1] == After(cfg, states[i], steps[i])
  {
  }

  // ---- What is left behind -------------------------------------------------------------

  /** In a session that has dropped what was there before it. */
  predicate Cleared(p: Phase) {
    p.Subscribing? || p.Driving? || p.Closing?
  }

  predicate EndsCleared(states: seq<State>, e: nat) {
    e + 1 < |states| && Cleared(states[e].phase) && states[e + 1].phase.Joined?
  }

  /** The last step before `i` that ended such a session. */
  function LastEnding(states: seq<State>, i: nat): (r: Option<nat>)
    requires i < |states|
    ensures r.Some? ==> r.value < i && EndsCleared(states, r.value) && forall e :: r.value < e < i ==> !EndsCleared(states, e)
    ensures r.None? ==> forall e :: 0 <= e < i ==> !EndsCleared(states, e)
  {
    if i == 0 then None else if EndsCleared(states, i - 1) then Some(i - 1) else LastEnding(states, i - 1)
  }

  /** What a session leaves: nothing if it cleaned up, what it had if it was cut short. */
  function LeftBy(cfg: Config, s: State, step: Step): nat {
    if step.CleanUp? then 0 else if s.phase.Subscribing? then s.phase.next else |cfg.topics|
  }

  function Left(cfg: Config, states: seq<State>, steps: seq<Step>, i: nat): nat
    requires i < |states| == |steps| + 1
  {
    var e := LastEnding(states, i);
    if e.None? then 0 else LeftBy(cfg, states[e.value], steps[e.value])
  }

  /** How a cleared session ends: its clean-up leaves nothing, anything else all it had. */
  lemma EndingStep(cfg: Config, s: State, step: Step)
    requires Good(cfg, s) && Enabled(cfg, s, step) && Cleared(s.phase) && !Cleared(After(cfg, s, step).phase)
    ensures After(cfg, s, step).phase.Joined?
    ensures LeftBy(cfg, s, step) <= |cfg.topics| && Exactly(cfg, After(cfg, s, step).table, LeftBy(cfg, s, step))
  {
    GoodStep(cfg, s, step);
    if step.CleanUp? { DroppedIsEmpty(cfg, s.table); }
  }

  /** Outside a cleared session the adapter's subscriptions stay as they are. */
  lemma QuietStep(cfg: Config, s: State, step: Step, n: nat)
    requires Enabled(cfg, s, step) && !Cleared(s.phase) && !Cleared(After(cfg, s, step).phase)
    requires n <= |cfg.topics| && Exactly(cfg, s.table, n)
    ensures Exactly(cfg, After(cfg, s, step).table, n)
  {
    if step.Elsewhere? { ElsewhereKeeps(cfg, s.table, step.table, n); }
  }

  /** In every run, whenever no session is past its first clearing, and so whenever the loop
      has stopped, the adapter's subscriptions are exactly those the last session to get that
      far left behind. */
  lemma {:induction false} LeftExactly(cfg: Config, states: seq<State>, steps: seq<Step>, i: nat)
    requires Run(cfg, states, steps) && i < |states| && !Cleared(states[i].phase)
    ensures Left(cfg, states, steps, i) <= |cfg.topics| && Exactly(cfg, states[i].table, Left(cfg, states, steps, i))
  {
    if i == 0 {
      assert Exactly(cfg, states[0].table, 0);
    } else {
      var s, step := states[i - 1], steps[i - 1];
      RunStep(cfg, states, steps, i - 1);
      RunsAreGood(cfg, states, steps, i - 1);
      if Cleared(s.phase) {
        EndingStep(cfg, s, step);
        assert EndsCleared(states, i - 1);
      } else {
        LeftExactly(cfg, states, steps, i - 1);
        QuietStep(cfg, s, step, Left(cfg, states, steps, i - 1));
      }
    }
  }

  /** And none remain exactly when no session got that far, or the last one to do so cleaned
      up, or was cut short before its first subscription, or there are no topics. */
  lemma NoneLeftExactly(cfg: Config, states: seq<State>, steps: seq<Step>, i: nat)
    requires Run(cfg, states, steps) && i < |states| && !Cleared(states[i].phase)
    ensures (forall k :: k in states[i].table ==> k.adapter != cfg.adapter) <==>
            match LastEnding(states, i)
            case None => true
            case Some(e) => steps[e].CleanUp? || states[e].phase == Subscribing(0) || cfg.topics == []
  {
    LeftExactly(cfg, states, steps, i);
    var n, t := Left(cfg, states, steps, i), states[i].table;
    if n > 0 {
      assert KeyOf(cfg, 0) in t && KeyOf(cfg, 0).adapter == cfg.adapter;
    }
    var e := LastEnding(states, i);
    if e.Some? {
      RunsAreGood(cfg, states, steps, e.value);
      assert n == 0 <==> steps[e.value].CleanUp? || states[e.value].phase == Subscribing(0) || cfg.topics == [];
    }
  }

  /** One way to leave a subscription behind: with reconnecting off, the second SUBSCRIBE
      cannot be written. */
  lemma StopsWithOneLeft(cfg: Config, tx: nat) returns (states: seq<State>, steps: seq<Step>)
    requires !cfg.reconnect && |cfg.topics| > 1
    ensures Run(cfg, states, steps) && |steps| == 6
    ensures states[6].phase == Stopped(false) && KeyOf(cfg, 0) in states[6].table
  {
    var s0 := State(map[], Waiting, false, 0);
    var s1 := After(cfg, s0, Start);
    var s2 := After(cfg, s1, Connect);
    var s3 := After(cfg, s2, Clear);
    assert s3.table == map[];
    var s4 := After(cfg, s3, SubscribeNext(tx));
    var s5 := After(cfg, s4, Fail);
    steps := [Start, Connect, Clear, SubscribeNext(tx), Fail, Decide];
    states := [s0, s1, s2, s3, s4, s5, After(cfg, s5, Decide)];
  }

  // ---- How the loop ends ---------------------------------------------------------------

  /** An ending the loop does not go on from, and calls an error. */
  predicate Fatal(cfg: Config, e: Ending) {
    (e == Failed && !cfg.reconnect) || (e == Panicked && (cfg.onPanic.Abort? || !cfg.reconnect))
  }

  predicate FatalAt(cfg: Config, states: seq<State>, steps: seq<Step>, k: nat) {
    k < |steps| && k < |states| && steps[k].Decide? && states[k].phase.Joined? && Fatal(cfg, states[k].phase.ending)
  }

  /** A step the loop stops at: a start that finds shutdown asked for, or a session's end it is
      not to go on from. */
  predicate StopsAt(cfg: Config, states: seq<State>, steps: seq<Step>, k: nat) {
    && k < |steps| && k < |states|
    && ((steps[k].Start? && states[k].shutdown) || (steps[k].Decide? && states[k].phase.Joined? && Final(cfg, states[k])))
  }

  predicate Final(cfg: Config, s: State)
    requires s.phase.Joined?
  {
    || !cfg.reconnect || s.shutdown || s.phase.ending == Cancelled
    || (s.phase.ending == Panicked && cfg.onPanic.Abort?)
  }

  lemma StopStep(cfg: Config, s: State, step: Step)
    requires Enabled(cfg, s, step)
    ensures After(cfg, s, step).phase == Stopped(false) <==>
            s.phase == Stopped(false) || (step.Decide? && Fatal(cfg, s.phase.ending))
    ensures After(cfg, s, step).phase.Stopped? <==>
            s.phase.Stopped? || (step.Start? && s.shutdown) || (step.Decide? && Final(cfg, s))
  {
  }

  /** In every run the loop has stopped exactly when some start found shutdown asked for, or
      some session ended with reconnecting off, with shutdown asked for, cancelled, or in a
      panic that is to abort; and with an error exactly when some session failed with
      reconnecting off, or panicked with panics set to abort or reconnecting off. */
  lemma {:induction false} StopsExactly(cfg: Config, states: seq<State>, steps: seq<Step>, i: nat)
    requires Run(cfg, states, steps) && i < |states|
    ensures states[i].phase.Stopped? <==> exists k :: 0 <= k < i && StopsAt(cfg, states, steps, k)
    ensures states[i].phase == Stopped(false) <==> exists k :: 0 <= k < i && FatalAt(cfg, states, steps, k)
  {
    if i > 0 {
      var s, step := states[i - 1], steps[i - 1];
      RunStep(cfg, states, steps, i - 1);
      StopsExactly(cfg, states, steps, i - 1);
      StopStep(cfg, s, step);
      assert StopsAt(cfg, states, steps, i - 1) <==> (step.Start? && s.shutdown) || (step.Decide? && Final(cfg, s));
      assert FatalAt(cfg, states, steps, i - 1) <==> step.Decide? && Fatal(cfg, s.phase.ending);
    }
  }

  /** A loop entered after shutdown was asked for starts no session, and ends without an
      error. */
  lemma {:induction false} ShutdownIsNoError(cfg: Config, states: seq<State>, steps: seq<Step>, i: nat)
    requires Run(cfg, states, steps) && i < |states| && states[0].shutdown
    ensures states[i].shutdown && (states[i].phase.Waiting? || states[i].phase == Stopped(true))
  {
    if i > 0 {
      RunStep(cfg, states, steps, i - 1);
      ShutdownIsNoError(cfg, states, steps, i - 1);
    }
  }
}
