/** One STOMP client and one DDS participant bridged over the engine, and why forwarding
    between them stops (crates/oa-gateway-stomp/src/adapter.rs,
    crates/oa-gateway-dds/src/adapter.rs). The broker sends a client its own messages back;
    a DDS reader skips its own participant's writes
    (crates/oa-gateway-dds/src/provider/rustdds.rs). Envelopes are seen here as their topic
    and origin stamp. A full channel may drop any delivery. */
module BridgeEcho {
  import opened Wrappers
  import opened Utf8

  datatype Config = Config(
    stomp: Text, dds: Text,
    stompTopics: seq<Text>, ddsTopics: seq<Text>,
    stompSuppress: bool, ddsSuppress: bool)

  datatype Side = Stomp | Dds

  /** `origin` is the header the gateway reads. `stamper` records which adapter made the
      envelope out of an inbound message; no step looks at it. */
  datatype Env = Env(topic: Text, origin: Option<Text>, stamper: Option<Side>)

  /** An envelope an adapter put on its bus. */
  datatype Write = Write(side: Side, env: Env)

  /** Queues, oldest first: MESSAGE frames from the broker and samples from other DDS
      participants, each with its topic; deliveries to either adapter. */
  datatype State = State(frames: seq<Text>, samples: seq<Text>, toStomp: seq<Env>, toDds: seq<Env>, writes: seq<Write>)

  const START := State([], [], [], [], [])

  /** Deliveries of one publish that got through, to either adapter. */
  datatype Publish = Publish(stomp: nat, dds: nat)

  /** An inbound message becomes no envelope when it is refused, one, or two when a wrapper
      is unwrapped. `copies` is how often the broker reflects a SEND: topics that share a
      destination reflect it once each. */
  datatype Step =
    | InjectFrame(topic: Text)
    | InjectSample(topic: Text)
    | InjectEnvelope(env: Env, publish: Publish)
    | StompInbound(publishes: seq<Publish>)
    | DdsInbound(publishes: seq<Publish>)
    | StompOutbound(copies: nat)
    | DdsOutbound

  /** Subscriptions an adapter has on a topic: one per time it is configured. */
  function Times(topics: seq<Text>, topic: Text): (n: nat)
    ensures n <= |topics|
    ensures topic !in topics ==> n == 0
    ensures topic in topics ==> n > 0
  {
    if topics == [] then 0 else (if topics[0] == topic then 1 else 0) + Times(topics[1..], topic)
  }

  predicate Possible(cfg: Config, topic: Text, p: Publish) {
    p.stomp <= Times(cfg.stompTopics, topic) && p.dds <= Times(cfg.ddsTopics, topic)
  }

  predicate Inbound(cfg: Config, topic: Text, ps: seq<Publish>) {
    |ps| <= 2 && forall i :: 0 <= i < |ps| ==> Possible(cfg, topic, ps[i])
  }

  /** `is_echo_of`, when suppression is on. */
  predicate StompSkips(cfg: Config, e: Env) {
    cfg.stompSuppress && e.origin == Some(cfg.stomp)
  }

  predicate DdsSkips(cfg: Config, e: Env) {
    (cfg.ddsSuppress && e.origin == Some(cfg.dds)) || e.topic !in cfg.ddsTopics
  }

  predicate Enabled(cfg: Config, s: State, step: Step) {
    match step
    case InjectFrame(_) => true
    case InjectSample(_) => true
    case InjectEnvelope(env, p) => env.stamper.None? && Possible(cfg, env.topic, p)
    case StompInbound(ps) => s.frames != [] && Inbound(cfg, s.frames[0], ps)
    case DdsInbound(ps) => s.samples != [] && Inbound(cfg, s.samples[0], ps)
    case StompOutbound(copies) => s.toStomp != [] && copies <= |cfg.stompTopics|
    case DdsOutbound => s.toDds != []
  }

  function Copies<T>(x: T, n: nat): (r: seq<T>)
    ensures |r| == n && forall i :: 0 <= i < n ==> r[i] == x
  {
    seq(n, _ => x)
  }

  function Deliver(s: State, e: Env, p: Publish): State {
    s.(toStomp := s.toStomp + Copies(e, p.stomp), toDds := s.toDds + Copies(e, p.dds))
  }

  function DeliverAll(s: State, e: Env, ps: seq<Publish>): State
    decreases |ps|
  {
    if ps == [] then s else DeliverAll(Deliver(s, e, ps[0]), e, ps[1..])
  }

  /** `with_origin`, on either side. */
  function StompEnv(cfg: Config, topic: Text): Env { Env(topic, Some(cfg.stomp), Some(Stomp)) }
  function DdsEnv(cfg: Config, topic: Text): Env { Env(topic, Some(cfg.dds), Some(Dds)) }

  function After(cfg: Config, s: State, step: Step): State
    requires Enabled(cfg, s, step)
  {
    match step
    case InjectFrame(topic) => s.(frames := s.frames + [topic])
    case InjectSample(topic) => s.(samples := s.samples + [topic])
    case InjectEnvelope(env, p) => Deliver(s, env, p)
    case StompInbound(ps) => DeliverAll(s.(frames := s.frames[1..]), StompEnv(cfg, s.frames[0]), ps)
    case DdsInbound(ps) => DeliverAll(s.(samples := s.samples[1..]), DdsEnv(cfg, s.samples[0]), ps)
    case StompOutbound(copies) =>
      var e, rest := s.toStomp[0], s.(toStomp := s.toStomp[1..]);
      if StompSkips(cfg, e) then rest
      else rest.(frames := s.frames + Copies(e.topic, copies), writes := s.writes + [Write(Stomp, e)])
    case DdsOutbound =>
      var e, rest := s.toDds[0], s.(toDds := s.toDds[1..]);
      if DdsSkips(cfg, e) then rest else rest.(writes := s.writes + [Write(Dds, e)])
  }

  predicate Injects(step: Step) {
    step.InjectFrame? || step.InjectSample? || step.InjectEnvelope?
  }

  ghost predicate Run(cfg: Config, states: seq<State>, steps: seq<Step>) {
    && |states| == |steps| + 1
    && states[0] == START
    && forall i :: 0 <= i < |steps| ==> Enabled(cfg, states[i], steps[i]) && states[i + 1] == After(cfg, states[i], steps[i])
  }

  // ---- No adapter writes what it stamped -----------------------------------------------

  function IdOf(cfg: Config, side: Side): Text {
    match side
    case Stomp => cfg.stomp
    case Dds => cfg.dds
  }

  /** The header says who made the envelope, if an adapter did. */
  predicate Truthful(cfg: Config, e: Env) {
    e.stamper.Some? ==> e.origin == Some(IdOf(cfg, e.stamper.value))
  }

  ghost predicate AllTruthful(cfg: Config, s: State) {
    (forall e :: e in s.toStomp ==> Truthful(cfg, e)) && forall e :: e in s.toDds ==> Truthful(cfg, e)
  }

  predicate Suppresses(cfg: Config, side: Side) {
    match side
    case Stomp => cfg.stompSuppress
    case Dds => cfg.ddsSuppress
  }

  /** Not an envelope its writer stamped. */
  predicate NotOwn(cfg: Config, w: Write) {
    Suppresses(cfg, w.side) ==> w.env.stamper != Some(w.side)
  }

  lemma {:induction false} DeliverAllKeeps(cfg: Config, s: State, e: Env, ps: seq<Publish>)
    requires AllTruthful(cfg, s) && Truthful(cfg, e)
    ensures AllTruthful(cfg, DeliverAll(s, e, ps))
    decreases |ps|
  {
    if ps != [] {
      DeliverKeeps(cfg, s, e, ps[0]);
      DeliverAllKeeps(cfg, Deliver(s, e, ps[0]), e, ps[1..]);
    }
  }

  lemma DeliverKeeps(cfg: Config, s: State, e: Env, p: Publish)
    requires AllTruthful(cfg, s) && Truthful(cfg, e)
    ensures AllTruthful(cfg, Deliver(s, e, p))
  {
    assert forall x :: x in Copies(e, p.stomp) ==> x == e;
    assert forall x :: x in Copies(e, p.dds) ==> x == e;
  }

  lemma TruthfulStep(cfg: Config, s: State, step: Step)
    requires AllTruthful(cfg, s) && Enabled(cfg, s, step)
    ensures AllTruthful(cfg, After(cfg, s, step))
  {
    match step
    case StompInbound(ps) => DeliverAllKeeps(cfg, s.(frames := s.frames[1..]), StompEnv(cfg, s.frames[0]), ps);
    case DdsInbound(ps) => DeliverAllKeeps(cfg, s.(samples := s.samples[1..]), DdsEnv(cfg, s.samples[0]), ps);
    case InjectEnvelope(env, p) => DeliverKeeps(cfg, s, env, p);
    case StompOutbound(_) => assert forall x :: x in s.toStomp[1..] ==> x in s.toStomp;
    case DdsOutbound => assert forall x :: x in s.toDds[1..] ==> x in s.toDds;
    case _ =>
  }

  /** A step writes one envelope at most, one that its writer did not stamp. */
  lemma WritesStep(cfg: Config, s: State, step: Step)
    requires Enabled(cfg, s, step)
    ensures var t := After(cfg, s, step);
            || t.writes == s.writes
            || (!Injects(step) && exists w :: t.writes == s.writes + [w] && (AllTruthful(cfg, s) ==> NotOwn(cfg, w)))
  {
    if step.StompInbound? {
      DeliverAllWritesNothing(s.(frames := s.frames[1..]), StompEnv(cfg, s.frames[0]), step.publishes);
    } else if step.DdsInbound? {
      DeliverAllWritesNothing(s.(samples := s.samples[1..]), DdsEnv(cfg, s.samples[0]), step.publishes);
    } else if step.StompOutbound? {
      var e := s.toStomp[0];
      assert AllTruthful(cfg, s) ==> Truthful(cfg, e);
      assert StompSkips(cfg, e) || (Truthful(cfg, e) ==> NotOwn(cfg, Write(Stomp, e)));
    } else if step.DdsOutbound? {
      var e := s.toDds[0];
      assert AllTruthful(cfg, s) ==> Truthful(cfg, e);
      assert DdsSkips(cfg, e) || (Truthful(cfg, e) ==> NotOwn(cfg, Write(Dds, e)));
    }
  }

  lemma {:induction false} DeliverAllWritesNothing(s: State, e: Env, ps: seq<Publish>)
    ensures var t := DeliverAll(s, e, ps); t.writes == s.writes && t.frames == s.frames && t.samples == s.samples
    decreases |ps|
  {
    if ps != [] { DeliverAllWritesNothing(Deliver(s, e, ps[0]), e, ps[1..]); }
  }

  lemma {:induction false} RunsAreTruthful(cfg: Config, states: seq<State>, steps: seq<Step>, i: nat)
    requires Run(cfg, states, steps) && i < |states|
    ensures AllTruthful(cfg, states[i])
  {
    if i > 0 {
      RunsAreTruthful(cfg, states, steps, i - 1);
      TruthfulStep(cfg, states[i - 1], steps[i - 1]);
    }
  }

  /** In every run, an adapter with suppression on never writes an envelope that it made of
      an inbound message itself. */
  lemma {:induction false} NeverOwn(cfg: Config, states: seq<State>, steps: seq<Step>, i: nat, k: nat)
    requires Run(cfg, states, steps) && i < |states| && k < |states[i].writes|
    ensures NotOwn(cfg, states[i].writes[k])
  {
    if i > 0 {
      RunsAreTruthful(cfg, states, steps, i - 1);
      WritesStep(cfg, states[i - 1], steps[i - 1]);
      if k < |states[i - 1].writes| { NeverOwn(cfg, states, steps, i - 1, k); }
    }
  }

  /** It holds back nothing else: in every run, what does not carry the adapter's own id is written,
      on DDS if its topic is configured, and with suppression off everything is. */
  lemma OnlyOwnIsHeldBack(cfg: Config, states: seq<State>, steps: seq<Step>, i: nat)
    requires Run(cfg, states, steps) && i < |steps|
    ensures steps[i].StompOutbound? ==>
              var e := states[i].toStomp[0];
              (states[i + 1].writes == states[i].writes + [Write(Stomp, e)] <==> !cfg.stompSuppress || e.origin != Some(cfg.stomp))
    ensures steps[i].DdsOutbound? ==>
              var e := states[i].toDds[0];
              (states[i + 1].writes == states[i].writes + [Write(Dds, e)] <==>
                 e.topic in cfg.ddsTopics && (!cfg.ddsSuppress || e.origin != Some(cfg.dds)))
  {
    assert Enabled(cfg, states[i], steps[i]) && states[i + 1] == After(cfg, states[i], steps[i]);
  }

  /** And with distinct ids that is nothing else an adapter made: in every run, what the other
      adapter stamped is written, on DDS if its topic is configured. */
  lemma OthersAreWritten(cfg: Config, states: seq<State>, steps: seq<Step>, i: nat)
    requires Run(cfg, states, steps) && i < |steps| && cfg.stomp != cfg.dds
    ensures steps[i].StompOutbound? && states[i].toStomp[0].stamper == Some(Dds) ==>
              states[i + 1].writes == states[i].writes + [Write(Stomp, states[i].toStomp[0])]
    ensures steps[i].DdsOutbound? && states[i].toDds[0].stamper == Some(Stomp) && states[i].toDds[0].topic in cfg.ddsTopics ==>
              states[i + 1].writes == states[i].writes + [Write(Dds, states[i].toDds[0])]
  {
    RunsAreTruthful(cfg, states, steps, i);
    assert Enabled(cfg, states[i], steps[i]) && states[i + 1] == After(cfg, states[i], steps[i]);
    if steps[i].StompOutbound? {
      assert Truthful(cfg, states[i].toStomp[0]);
    } else if steps[i].DdsOutbound? {
      assert Truthful(cfg, states[i].toDds[0]);
    }
  }

  // ---- Forwarding spends something -----------------------------------------------------

  /** Suppression on the STOMP side, or nothing to suppress. The DDS flag does not matter. */
  predicate Damped(cfg: Config) {
    cfg.stompSuppress || cfg.stompTopics == []
  }

  function N(cfg: Config): nat { |cfg.stompTopics| }
  function M(cfg: Config): nat { |cfg.ddsTopics| }

  /** A frame from the broker becomes at most two publishes, stamped STOMP. */
  function FrameCost(cfg: Config): nat { 1 + 2 * (N(cfg) + M(cfg)) }

  /** A delivery to STOMP is skipped, or sent and reflected. */
  function StompCost(cfg: Config, e: Env): nat { if StompSkips(cfg, e) then 1 else OtherCost(cfg) }
  function OtherCost(cfg: Config): nat { 1 + N(cfg) * FrameCost(cfg) }

  /** One publish of an envelope STOMP does not skip. */
  function PublishCost(cfg: Config): nat { N(cfg) * OtherCost(cfg) + M(cfg) }
  function SampleCost(cfg: Config): nat { 1 + 2 * PublishCost(cfg) }

  function StompCosts(cfg: Config, es: seq<Env>): nat {
    if es == [] then 0 else StompCost(cfg, es[0]) + StompCosts(cfg, es[1..])
  }

  function Measure(cfg: Config, s: State): nat {
    |s.frames| * FrameCost(cfg) + |s.samples| * SampleCost(cfg) + StompCosts(cfg, s.toStomp) + |s.toDds|
  }

  function Charge(cfg: Config, step: Step): nat {
    match step
    case InjectFrame(_) => FrameCost(cfg)
    case InjectSample(_) => SampleCost(cfg)
    case InjectEnvelope(_, _) => PublishCost(cfg)
    case _ => 0
  }

  lemma {:induction false} CostsAppend(cfg: Config, a: seq<Env>, b: seq<Env>)
    ensures StompCosts(cfg, a + b) == StompCosts(cfg, a) + StompCosts(cfg, b)
  {
    if a == [] {
      assert a + b == b;
    } else {
      assert (a + b)[1..] == a[1..] + b;
      CostsAppend(cfg, a[1..], b);
    }
  }

  lemma {:induction false} CostsOfCopies(cfg: Config, e: Env, n: nat)
    ensures StompCosts(cfg, Copies(e, n)) == n * StompCost(cfg, e)
  {
    if n > 0 {
      assert Copies(e, n)[1..] == Copies(e, n - 1);
      CostsOfCopies(cfg, e, n - 1);
    }
  }

  lemma Scale(a: nat, b: nat, c: nat)
    requires a <= b
    ensures a * c <= b * c
  {
  }

  /** What one publish adds: at most `N` deliveries at the envelope's cost, and `M` more. */
  lemma DeliverCost(cfg: Config, s: State, e: Env, p: Publish)
    requires Possible(cfg, e.topic, p)
    ensures Measure(cfg, Deliver(s, e, p)) <= Measure(cfg, s) + N(cfg) * StompCost(cfg, e) + M(cfg)
  {
    CostsAppend(cfg, s.toStomp, Copies(e, p.stomp));
    CostsOfCopies(cfg, e, p.stomp);
    Scale(p.stomp, N(cfg), StompCost(cfg, e));
  }

  /** What several publishes of one envelope add, `each` being enough for one. */
  lemma DeliverAllCost(cfg: Config, s: State, e: Env, ps: seq<Publish>, each: nat)
    requires forall i :: 0 <= i < |ps| ==> Possible(cfg, e.topic, ps[i])
    requires N(cfg) * StompCost(cfg, e) + M(cfg) <= each
    ensures Measure(cfg, DeliverAll(s, e, ps)) <= Measure(cfg, s) + |ps| * each
  {
    var measure := (x: State) => Measure(cfg, x);
    forall x, p | Possible(cfg, e.topic, p) ensures Raises(measure, e, x, p, each) {
      DeliverCost(cfg, x, e, p);
      assert measure(x) == Measure(cfg, x) && measure(Deliver(x, e, p)) == Measure(cfg, Deliver(x, e, p));
    }
    DeliverAllRaises(cfg, measure, s, e, ps, each);
  }

  predicate Raises(measure: State -> nat, e: Env, s: State, p: Publish, each: nat) {
    measure(Deliver(s, e, p)) <= measure(s) + each
  }

  /** Whatever is measured: if a publish adds so much at most, several add so many times it. */
  lemma {:induction false} DeliverAllRaises(cfg: Config, measure: State -> nat, s: State, e: Env, ps: seq<Publish>, each: nat)
    requires forall i :: 0 <= i < |ps| ==> Possible(cfg, e.topic, ps[i])
    requires forall x, p :: Possible(cfg, e.topic, p) ==> Raises(measure, e, x, p, each)
    ensures measure(DeliverAll(s, e, ps)) <= measure(s) + |ps| * each
    decreases |ps|
  {
    if ps != [] {
      var first := Deliver(s, e, ps[0]);
      assert Raises(measure, e, s, ps[0], each);
      assert forall i :: 0 <= i < |ps[1..]| ==> ps[1..][i] == ps[i + 1];
      DeliverAllRaises(cfg, measure, first, e, ps[1..], each);
      AddsUp(|ps|, each, measure(s), measure(first), measure(DeliverAll(s, e, ps)));
    }
  }

  lemma AddsUp(n: nat, c: nat, a: nat, b: nat, d: nat)
    requires n > 0 && b <= a + c && d <= b + (n - 1) * c
    ensures d <= a + n * c
  {
    OneMore(n, c);
  }

  lemma OneMore(n: nat, c: nat)
    requires n > 0
    ensures (n - 1) * c + c == n * c
  {
  }

  lemma CostIsAtMost(cfg: Config, e: Env)
    ensures N(cfg) * StompCost(cfg, e) <= N(cfg) * OtherCost(cfg)
  {
    var f := N(cfg) * FrameCost(cfg);
    assert f >= 0 by { Scale(0, N(cfg), FrameCost(cfg)); }
    assert StompCost(cfg, e) <= OtherCost(cfg);
    Scale(StompCost(cfg, e), OtherCost(cfg), N(cfg));
  }

  /** A delivery STOMP skips costs one, and without topics there is none. */
  lemma OwnCost(cfg: Config, topic: Text)
    requires Damped(cfg)
    ensures N(cfg) * StompCost(cfg, StompEnv(cfg, topic)) <= N(cfg)
  {
    if cfg.stompSuppress {
      assert StompCost(cfg, StompEnv(cfg, topic)) == 1;
    } else {
      assert N(cfg) == 0;
    }
  }

  lemma StompInboundSpends(cfg: Config, s: State, ps: seq<Publish>)
    requires Damped(cfg) && Enabled(cfg, s, StompInbound(ps))
    ensures Measure(cfg, After(cfg, s, StompInbound(ps))) < Measure(cfg, s)
  {
    var e, rest := StompEnv(cfg, s.frames[0]), s.(frames := s.frames[1..]);
    OneMore(|s.frames|, FrameCost(cfg));
    OwnCost(cfg, s.frames[0]);
    DeliverAllCost(cfg, rest, e, ps, N(cfg) + M(cfg));
    Scale(|ps|, 2, N(cfg) + M(cfg));
  }

  lemma DdsInboundSpends(cfg: Config, s: State, ps: seq<Publish>)
    requires Enabled(cfg, s, DdsInbound(ps))
    ensures Measure(cfg, After(cfg, s, DdsInbound(ps))) < Measure(cfg, s)
  {
    var e, rest := DdsEnv(cfg, s.samples[0]), s.(samples := s.samples[1..]);
    OneMore(|s.samples|, SampleCost(cfg));
    CostIsAtMost(cfg, e);
    DeliverAllCost(cfg, rest, e, ps, PublishCost(cfg));
    Scale(|ps|, 2, PublishCost(cfg));
  }

  lemma StompOutboundSpends(cfg: Config, s: State, copies: nat)
    requires Enabled(cfg, s, StompOutbound(copies))
    ensures Measure(cfg, After(cfg, s, StompOutbound(copies))) < Measure(cfg, s)
  {
    var e, t := s.toStomp[0], After(cfg, s, StompOutbound(copies));
    if !StompSkips(cfg, e) {
      var c := FrameCost(cfg);
      assert |t.frames| == |s.frames| + copies;
      Distribute(|s.frames|, copies, c);
      Scale(copies, N(cfg), c);
    }
  }

  lemma Distribute(a: nat, b: nat, c: nat)
    ensures (a + b) * c == a * c + b * c
  {
  }

  /** Every step that is not an injection leaves less to do. */
  lemma EachStepSpends(cfg: Config, s: State, step: Step)
    requires Damped(cfg) && Enabled(cfg, s, step) && !Injects(step)
    ensures Measure(cfg, After(cfg, s, step)) < Measure(cfg, s)
  {
    match step
    case StompInbound(ps) => StompInboundSpends(cfg, s, ps);
    case DdsInbound(ps) => DdsInboundSpends(cfg, s, ps);
    case StompOutbound(copies) => StompOutboundSpends(cfg, s, copies);
    case DdsOutbound =>
  }

  lemma InjectionCosts(cfg: Config, s: State, step: Step)
    requires Enabled(cfg, s, step) && Injects(step)
    ensures Measure(cfg, After(cfg, s, step)) <= Measure(cfg, s) + Charge(cfg, step)
  {
    match step
    case InjectFrame(_) => Distribute(|s.frames|, 1, FrameCost(cfg));
    case InjectSample(_) => Distribute(|s.samples|, 1, SampleCost(cfg));
    case InjectEnvelope(env, p) => DeliverCost(cfg, s, env, p); CostIsAtMost(cfg, env);
  }

  function Charges(cfg: Config, steps: seq<Step>): nat {
    if steps == [] then 0 else Charges(cfg, steps[..|steps| - 1]) + Charge(cfg, steps[|steps| - 1])
  }

  /** In every run, whatever is injected and however it interleaves, the adapters write no
      more than the injected messages pay for, a fixed number each. */
  lemma {:induction false} SendsAreBounded(cfg: Config, states: seq<State>, steps: seq<Step>, i: nat)
    requires Damped(cfg) && Run(cfg, states, steps) && i < |states|
    ensures |states[i].writes| + Measure(cfg, states[i]) <= Charges(cfg, steps[..i])
  {
    if i > 0 {
      SendsAreBounded(cfg, states, steps, i - 1);
      var s, step := states[i - 1], steps[i - 1];
      assert steps[..i][..i - 1] == steps[..i - 1];
      WritesStep(cfg, s, step);
      if Injects(step) { InjectionCosts(cfg, s, step); } else { EachStepSpends(cfg, s, step); }
    }
  }

  /** Once nothing more is injected, a run is over after as many steps as are paid for. */
  lemma {:induction false} QuietRunsEnd(cfg: Config, states: seq<State>, steps: seq<Step>, i: nat, j: nat)
    requires Damped(cfg) && Run(cfg, states, steps) && i <= j < |states|
    requires forall k :: i <= k < j ==> !Injects(steps[k])
    ensures j - i + Measure(cfg, states[j]) <= Measure(cfg, states[i])
  {
    if i < j {
      QuietRunsEnd(cfg, states, steps, i, j - 1);
      EachStepSpends(cfg, states[j - 1], steps[j - 1]);
    }
  }

  // ---- Without suppression -------------------------------------------------------------

  predicate All<T(==)>(xs: seq<T>, x: T) {
    forall i :: 0 <= i < |xs| ==> xs[i] == x
  }

  /** Every delivery made, and every reflection. */
  function Everything(cfg: Config, topic: Text): Publish {
    Publish(Times(cfg.stompTopics, topic), Times(cfg.ddsTopics, topic))
  }

  predicate NothingLost(cfg: Config, topic: Text, step: Step) {
    && (step.StompInbound? ==> step.publishes == [Everything(cfg, topic)])
    && (step.StompOutbound? ==> step.copies == Times(cfg.stompTopics, topic))
  }

  /** Frames and deliveries on one topic only, and something to do. */
  predicate Going(cfg: Config, s: State, topic: Text) {
    All(s.frames, topic) && All(s.toStomp, StompEnv(cfg, topic)) && (s.frames != [] || s.toStomp != [])
  }

  lemma RoundIn(cfg: Config, s: State, topic: Text)
    requires topic in cfg.stompTopics && Going(cfg, s, topic) && s.toStomp == []
    ensures var step := StompInbound([Everything(cfg, topic)]);
            && Enabled(cfg, s, step)
            && var t := After(cfg, s, step);
               Going(cfg, t, topic) && t.toStomp != [] && t.writes == s.writes
  {
    var e, rest, ps := StompEnv(cfg, topic), s.(frames := s.frames[1..]), [Everything(cfg, topic)];
    assert s.frames[0] == topic && ps[1..] == [];
    assert DeliverAll(rest, e, ps) == Deliver(rest, e, ps[0]);
  }

  lemma RoundOut(cfg: Config, s: State, topic: Text)
    requires !cfg.stompSuppress && topic in cfg.stompTopics && Going(cfg, s, topic) && s.toStomp != []
    ensures var step := StompOutbound(Times(cfg.stompTopics, topic));
            && Enabled(cfg, s, step)
            && var t := After(cfg, s, step);
               Going(cfg, t, topic) && |t.writes| == |s.writes| + 1
  {
    assert s.toStomp[0] == StompEnv(cfg, topic);
    var t := After(cfg, s, StompOutbound(Times(cfg.stompTopics, topic)));
    forall i | 0 <= i < |t.toStomp| ensures t.toStomp[i] == StompEnv(cfg, topic) { assert t.toStomp[i] == s.toStomp[i + 1]; }
  }

  /** A run that only one frame was injected into, with nothing lost on the way. */
  ghost predicate Circles(cfg: Config, topic: Text, states: seq<State>, steps: seq<Step>) {
    && Run(cfg, states, steps)
    && steps != [] && steps[0] == InjectFrame(topic)
    && (forall k :: 1 <= k < |steps| ==> !Injects(steps[k]))
    && (forall k :: 0 <= k < |steps| ==> NothingLost(cfg, topic, steps[k]))
  }

  lemma OneStepOn(cfg: Config, topic: Text, states: seq<State>, steps: seq<Step>, step: Step)
    requires Circles(cfg, topic, states, steps) && !Injects(step) && NothingLost(cfg, topic, step)
    requires Enabled(cfg, states[|steps|], step)
    ensures Circles(cfg, topic, states + [After(cfg, states[|steps|], step)], steps + [step])
  {
  }

  /** With suppression off, one message on a bridged topic makes as many sends as you wait
      for, though no channel is ever full. */
  lemma WithoutSuppressionItNeverStops(cfg: Config, topic: Text, n: nat) returns (states: seq<State>, steps: seq<Step>)
    requires !cfg.stompSuppress && topic in cfg.stompTopics
    ensures Circles(cfg, topic, states, steps) && |states[|steps|].writes| == n
  {
    steps := [InjectFrame(topic)];
    states := [START, After(cfg, START, InjectFrame(topic))];
    for i := 0 to n
      invariant Circles(cfg, topic, states, steps) && Going(cfg, states[|steps|], topic) && |states[|steps|].writes| == i
    {
      states, steps := OneMoreSend(cfg, topic, states, steps);
    }
  }

  lemma OneMoreSend(cfg: Config, topic: Text, before: seq<State>, done: seq<Step>) returns (states: seq<State>, steps: seq<Step>)
    requires !cfg.stompSuppress && topic in cfg.stompTopics
    requires Circles(cfg, topic, before, done) && Going(cfg, before[|done|], topic)
    ensures Circles(cfg, topic, states, steps) && Going(cfg, states[|steps|], topic)
    ensures |states[|steps|].writes| == |before[|done|].writes| + 1
  {
    states, steps := before, done;
    if states[|steps|].toStomp == [] {
      var step := StompInbound([Everything(cfg, topic)]);
      RoundIn(cfg, states[|steps|], topic);
      OneStepOn(cfg, topic, states, steps, step);
      states, steps := states + [After(cfg, states[|steps|], step)], steps + [step];
    }
    var step := StompOutbound(Times(cfg.stompTopics, topic));
    RoundOut(cfg, states[|steps|], topic);
    OneStepOn(cfg, topic, states, steps, step);
    states, steps := states + [After(cfg, states[|steps|], step)], steps + [step];
  }

  /** With suppression off on the DDS side, DDS writes back a sample it just read. */
  lemma DdsWritesBack(cfg: Config, topic: Text) returns (states: seq<State>, steps: seq<Step>)
    requires !cfg.ddsSuppress && topic in cfg.ddsTopics
    ensures Run(cfg, states, steps) && |steps| == 3
    ensures states[3].writes == [Write(Dds, DdsEnv(cfg, topic))]
  {
    var e := DdsEnv(cfg, topic);
    var ps := [Publish(0, 1)];
    var a := After(cfg, START, InjectSample(topic));
    assert a.samples == [topic];
    assert ps[1..] == [];
    var b := After(cfg, a, DdsInbound(ps));
    assert b.toDds == [e] && b.writes == [] by {
      assert DeliverAll(a.(samples := a.samples[1..]), e, ps) == Deliver(a.(samples := a.samples[1..]), e, ps[0]);
      assert [] + Copies(e, 1) == [e];
    }
    steps := [InjectSample(topic), DdsInbound(ps), DdsOutbound];
    states := [START, a, b, After(cfg, b, DdsOutbound)];
  }
}
