/** Publishes in flight (crates/oa-gateway-core/src/engine.rs, `publish`). A publish counts
    itself, takes a snapshot of the matching subscriptions under the read lock, releases the
    lock, tries each target's channel in turn and adds to two counters, one after the other.
    Any other step may come between two of these. Counters do not wrap. */
module Fanout {
  import opened Utf8
  import opened Routing
  import opened EngineState

  datatype Phase = Begun | Sending | Counting | Finished

  datatype Attempt = Attempt(key: Key, tx: nat, accepted: bool)

  /** One publish; `seen` is the table its snapshot was taken from. */
  datatype Job = Job(
    publisher: nat,
    envelope: Envelope,
    phase: Phase,
    seen: Table,
    order: seq<Key>,
    targets: seq<Target>,
    attempts: seq<Attempt>,
    sent: nat,
    lost: nat)

  /** Publish `job` put a delivery for `sub` on the channel. */
  datatype Entry = Entry(job: nat, sub: Text)

  /** Everything that ever entered a channel; the first `received` have been taken out. */
  datatype Channel = Channel(capacity: nat, open: bool, log: seq<Entry>, received: nat)

  /** Publishes are numbered in the order they begin. */
  datatype State = State(
    table: Table,
    channels: map<nat, Channel>,
    jobs: seq<Job>,
    published: nat,
    delivered: nat,
    dropped: nat)

  const START := State(map[], map[], [], 0, 0, 0)

  datatype Step =
    | Subscribe(key: Key, subscription: Subscription)
    | Unsubscribe(key: Key)
    | DropAdapter(adapter: Text)
    | Open(tx: nat, capacity: nat)
    | Receive(tx: nat)
    | Close(tx: nat)
    | Begin(publisher: nat, envelope: Envelope)
    | Snapshot(id: nat, order: seq<Key>)
    | TrySend(id: nat)
    | CountDelivered(id: nat)
    | CountDropped(id: nat)

  predicate Takes(channels: map<nat, Channel>, tx: nat) {
    tx in channels && channels[tx].open && |channels[tx].log| - channels[tx].received < channels[tx].capacity
  }

  predicate Idle(jobs: seq<Job>, publisher: nat) {
    forall i :: 0 <= i < |jobs| && jobs[i].publisher == publisher ==> jobs[i].phase.Finished?
  }

  /** A publisher begins its next publish once the last one has returned. */
  ghost predicate Enabled(s: State, step: Step) {
    match step
    case Open(tx, _) => tx !in s.channels
    case Receive(tx) => tx in s.channels && s.channels[tx].received < |s.channels[tx].log|
    case Close(tx) => tx in s.channels
    case Begin(publisher, _) => Idle(s.jobs, publisher)
    case Snapshot(id, order) =>
      id < |s.jobs| && s.jobs[id].phase.Begun? && Enumerates(order, Matching(s.table, s.jobs[id].envelope.route))
    case TrySend(id) => id < |s.jobs| && s.jobs[id].phase.Sending? && |s.jobs[id].attempts| < |s.jobs[id].targets| <= |s.jobs[id].order|
    case CountDelivered(id) => id < |s.jobs| && s.jobs[id].phase.Sending? && |s.jobs[id].attempts| == |s.jobs[id].targets|
    case CountDropped(id) => id < |s.jobs| && s.jobs[id].phase.Counting?
    case _ => true
  }

  function TargetsOf(t: Table, order: seq<Key>): (r: seq<Target>)
    requires forall i :: 0 <= i < |order| ==> order[i] in t
    ensures |r| == |order|
  {
    seq(|order|, i requires 0 <= i < |order| => Target(t[order[i]].tx, order[i].sub))
  }

  lemma MembersMatch(t: Table, r: Route, order: seq<Key>)
    requires Enumerates(order, Matching(t, r))
    ensures forall i :: 0 <= i < |order| ==> order[i] in t
  {
    forall i | 0 <= i < |order| ensures order[i] in t { assert order[i] in order; }
  }

  function Tried(j: Job, accepted: bool): Job
    requires |j.attempts| < |j.targets| <= |j.order|
  {
    var i := |j.attempts|;
    j.(attempts := j.attempts + [Attempt(j.order[i], j.targets[i].tx, accepted)],
       sent := if accepted then j.sent + 1 else j.sent,
       lost := if accepted then j.lost else j.lost + 1)
  }

  ghost function After(s: State, step: Step): State
    requires Enabled(s, step)
  {
    match step
    case Subscribe(key, subscription) => if key in s.table then s else s.(table := s.table[key := subscription])
    case Unsubscribe(key) => s.(table := s.table - {key})
    case DropAdapter(adapter) => s.(table := WithoutAdapter(s.table, adapter))
    case Open(tx, capacity) => s.(channels := s.channels[tx := Channel(capacity, true, [], 0)])
    case Receive(tx) => s.(channels := s.channels[tx := s.channels[tx].(received := s.channels[tx].received + 1)])
    case Close(tx) => s.(channels := s.channels[tx := s.channels[tx].(open := false)])
    case Begin(publisher, envelope) =>
      s.(jobs := s.jobs + [Job(publisher, envelope, Begun, map[], [], [], [], 0, 0)], published := s.published + 1)
    case Snapshot(id, order) =>
      MembersMatch(s.table, s.jobs[id].envelope.route, order);
      s.(jobs := s.jobs[id := s.jobs[id].(phase := Sending, seen := s.table, order := order, targets := TargetsOf(s.table, order))])
    case TrySend(id) =>
      var j := s.jobs[id];
      var t := j.targets[|j.attempts|];
      var accepted := Takes(s.channels, t.tx);
      s.(jobs := s.jobs[id := Tried(j, accepted)],
         channels := if accepted then s.channels[t.tx := s.channels[t.tx].(log := s.channels[t.tx].log + [Entry(id, t.sub)])] else s.channels)
    case CountDelivered(id) =>
      s.(jobs := s.jobs[id := s.jobs[id].(phase := Counting)], delivered := s.delivered + s.jobs[id].sent)
    case CountDropped(id) =>
      s.(jobs := s.jobs[id := s.jobs[id].(phase := Finished)], dropped := s.dropped + s.jobs[id].lost)
  }

  /** States of a run, from an empty router. */
  ghost predicate Run(states: seq<State>, steps: seq<Step>) {
    && |states| == |steps| + 1
    && states[0] == START
    && forall i :: 0 <= i < |steps| ==> Enabled(states[i], steps[i]) && states[i + 1] == After(states[i], steps[i])
  }

  // ---- What a publish has done so far --------------------------------------------------

  function CountAccepted(attempts: seq<Attempt>): nat {
    if attempts == [] then 0
    else CountAccepted(attempts[..|attempts| - 1]) + if attempts[|attempts| - 1].accepted then 1 else 0
  }

  ghost predicate JobOk(j: Job) {
    && (j.phase.Begun? ==> j.order == [] && j.targets == [])
    && (!j.phase.Begun? ==> Enumerates(j.order, Matching(j.seen, j.envelope.route)))
    && Aims(j.seen, j.order, j.targets)
    && |j.attempts| <= |j.order|
    && (forall i :: 0 <= i < |j.attempts| ==> j.attempts[i].key == j.order[i] && j.attempts[i].tx == j.targets[i].tx)
    && j.sent == CountAccepted(j.attempts) && j.sent + j.lost == |j.attempts|
    && (j.phase.Counting? || j.phase.Finished? ==> |j.attempts| == |j.order|)
  }

  ghost predicate JobsOk(s: State) {
    forall i :: 0 <= i < |s.jobs| ==> JobOk(s.jobs[i])
  }

  lemma TriedOk(j: Job, accepted: bool)
    requires JobOk(j) && j.phase.Sending? && |j.attempts| < |j.targets|
    ensures JobOk(Tried(j, accepted))
  {
    var k := Tried(j, accepted);
    assert k.attempts[..|j.attempts|] == j.attempts;
  }

  lemma JobsStep(s: State, step: Step)
    requires JobsOk(s) && Enabled(s, step)
    ensures JobsOk(After(s, step))
  {
    match step
    case Snapshot(id, order) => MembersMatch(s.table, s.jobs[id].envelope.route, order); assert JobOk(s.jobs[id]);
    case TrySend(id) => TriedOk(s.jobs[id], Takes(s.channels, s.jobs[id].targets[|s.jobs[id].attempts|].tx));
    case CountDelivered(id) => assert JobOk(s.jobs[id]);
    case CountDropped(id) => assert JobOk(s.jobs[id]);
    case _ =>
  }

  // ---- The counters --------------------------------------------------------------------

  /** What a publish has added to the two counters. */
  function SentShare(j: Job): nat { if j.phase.Counting? || j.phase.Finished? then j.sent else 0 }
  function LostShare(j: Job): nat { if j.phase.Finished? then j.lost else 0 }

  function TotalSent(jobs: seq<Job>): nat {
    if jobs == [] then 0 else TotalSent(jobs[..|jobs| - 1]) + SentShare(jobs[|jobs| - 1])
  }

  function TotalLost(jobs: seq<Job>): nat {
    if jobs == [] then 0 else TotalLost(jobs[..|jobs| - 1]) + LostShare(jobs[|jobs| - 1])
  }

  /** Subscriptions matched by all publishes together. */
  ghost function TotalMatched(jobs: seq<Job>): nat {
    if jobs == [] then 0
    else TotalMatched(jobs[..|jobs| - 1]) + |Matching(jobs[|jobs| - 1].seen, jobs[|jobs| - 1].envelope.route)|
  }

  ghost predicate Counted(s: State) {
    s.published == |s.jobs| && s.delivered == TotalSent(s.jobs) && s.dropped == TotalLost(s.jobs)
  }

  lemma {:induction false} TotalsAfter(jobs: seq<Job>, id: nat, j: Job)
    requires id < |jobs|
    ensures TotalSent(jobs[id := j]) == TotalSent(jobs) - SentShare(jobs[id]) + SentShare(j)
    ensures TotalLost(jobs[id := j]) == TotalLost(jobs) - LostShare(jobs[id]) + LostShare(j)
  {
    var k := |jobs| - 1;
    if id == k {
      assert jobs[id := j][..k] == jobs[..k];
    } else {
      TotalsAfter(jobs[..k], id, j);
      assert jobs[id := j][..k] == jobs[..k][id := j];
    }
  }

  lemma CountedStep(s: State, step: Step)
    requires Counted(s) && Enabled(s, step)
    ensures Counted(After(s, step))
  {
    match step
    case Begin(publisher, envelope) => CountedBegin(s, publisher, envelope);
    case Snapshot(id, order) => CountedSnapshot(s, id, order);
    case TrySend(id) => CountedTrySend(s, id);
    case CountDelivered(id) => CountedDelivered(s, id);
    case CountDropped(id) => CountedDropped(s, id);
    case _ =>
  }

  lemma CountedBegin(s: State, publisher: nat, envelope: Envelope)
    requires Counted(s) && Enabled(s, Begin(publisher, envelope))
    ensures Counted(After(s, Begin(publisher, envelope)))
  {
    assert After(s, Begin(publisher, envelope)).jobs[..|s.jobs|] == s.jobs;
  }

  lemma CountedSnapshot(s: State, id: nat, order: seq<Key>)
    requires Counted(s) && Enabled(s, Snapshot(id, order))
    ensures Counted(After(s, Snapshot(id, order)))
  {
    var t := After(s, Snapshot(id, order));
    CountedJob(s, t, id, t.jobs[id]);
  }

  lemma CountedTrySend(s: State, id: nat)
    requires Counted(s) && Enabled(s, TrySend(id))
    ensures Counted(After(s, TrySend(id)))
  {
    var t := After(s, TrySend(id));
    CountedJob(s, t, id, t.jobs[id]);
  }

  lemma CountedDelivered(s: State, id: nat)
    requires Counted(s) && Enabled(s, CountDelivered(id))
    ensures Counted(After(s, CountDelivered(id)))
  {
    var t := After(s, CountDelivered(id));
    CountedJob(s, t, id, t.jobs[id]);
  }

  lemma CountedDropped(s: State, id: nat)
    requires Counted(s) && Enabled(s, CountDropped(id))
    ensures Counted(After(s, CountDropped(id)))
  {
    var t := After(s, CountDropped(id));
    CountedJob(s, t, id, t.jobs[id]);
  }

  /** The counters move by what one publish's share moves. */
  lemma CountedJob(s: State, t: State, id: nat, j: Job)
    requires Counted(s) && id < |s.jobs| && t.jobs == s.jobs[id := j] && t.published == s.published
    requires t.delivered == s.delivered - SentShare(s.jobs[id]) + SentShare(j)
    requires t.dropped == s.dropped - LostShare(s.jobs[id]) + LostShare(j)
    ensures Counted(t)
  {
    TotalsAfter(s.jobs, id, j);
  }

  lemma {:induction false} FinishedTotals(jobs: seq<Job>)
    requires forall i :: 0 <= i < |jobs| ==> JobOk(jobs[i]) && jobs[i].phase.Finished?
    ensures TotalSent(jobs) + TotalLost(jobs) == TotalMatched(jobs)
  {
    if jobs != [] {
      var j := jobs[|jobs| - 1];
      FinishedTotals(jobs[..|jobs| - 1]);
      EnumerationLength(j.order, Matching(j.seen, j.envelope.route));
    }
  }

  // ---- Publishers are sequential -------------------------------------------------------

  /** Of one publisher's publishes only the latest may be unfinished. */
  ghost predicate OneAtATime(s: State) {
    forall i, j :: 0 <= i < j < |s.jobs| && s.jobs[i].publisher == s.jobs[j].publisher ==> s.jobs[i].phase.Finished?
  }

  lemma OneAtATimeStep(s: State, step: Step)
    requires OneAtATime(s) && Enabled(s, step)
    ensures OneAtATime(After(s, step))
  {
  }

  // ---- The channels --------------------------------------------------------------------

  /** What one publish put on a channel. */
  function OfJob(log: seq<Entry>, id: nat): seq<Text> {
    if log == [] then []
    else OfJob(log[..|log| - 1], id) + if log[|log| - 1].job == id then [log[|log| - 1].sub] else []
  }

  /** What one publish had accepted by a channel. */
  function AcceptedOn(attempts: seq<Attempt>, tx: nat): seq<Text> {
    if attempts == [] then []
    else
      var a := attempts[|attempts| - 1];
      AcceptedOn(attempts[..|attempts| - 1], tx) + if a.accepted && a.tx == tx then [a.key.sub] else []
  }

  /** A channel holds no more than its capacity, and entries of known publishes. */
  predicate ChannelOk(c: Channel, jobs: nat) {
    && c.received <= |c.log| && |c.log| - c.received <= c.capacity
    && forall i :: 0 <= i < |c.log| ==> c.log[i].job < jobs
  }

  ghost predicate ChannelsOk(s: State) {
    forall tx :: tx in s.channels ==> ChannelOk(s.channels[tx], |s.jobs|)
  }

  function LogOf(channels: map<nat, Channel>, tx: nat): seq<Entry> {
    if tx in channels then channels[tx].log else []
  }

  predicate Agrees(attempts: seq<Attempt>, id: nat, log: seq<Entry>, tx: nat) {
    AcceptedOn(attempts, tx) == OfJob(log, id)
  }

  /** A channel's log holds each publish's accepted attempts on it, those and no more. */
  ghost predicate LogsMatch(s: State) {
    forall id, tx :: 0 <= id < |s.jobs| ==> Agrees(s.jobs[id].attempts, id, LogOf(s.channels, tx), tx)
  }

  lemma ChannelsStep(s: State, step: Step)
    requires ChannelsOk(s) && Enabled(s, step)
    ensures ChannelsOk(After(s, step))
  {
    var t := After(s, step);
    forall tx | tx in t.channels ensures ChannelOk(t.channels[tx], |t.jobs|) {
      if tx in s.channels { assert ChannelOk(s.channels[tx], |s.jobs|); }
    }
  }

  lemma {:induction false} NoSuchJob(log: seq<Entry>, id: nat)
    requires forall i :: 0 <= i < |log| ==> log[i].job < id
    ensures OfJob(log, id) == []
  {
    if log != [] { NoSuchJob(log[..|log| - 1], id); }
  }

  lemma LogsBegin(s: State, publisher: nat, envelope: Envelope)
    requires LogsMatch(s) && ChannelsOk(s) && Enabled(s, Begin(publisher, envelope))
    ensures LogsMatch(After(s, Begin(publisher, envelope)))
  {
    var t := After(s, Begin(publisher, envelope));
    forall id, tx | 0 <= id < |t.jobs| ensures Agrees(t.jobs[id].attempts, id, LogOf(t.channels, tx), tx) {
      if id < |s.jobs| {
        assert t.jobs[id] == s.jobs[id];
      } else {
        if tx in s.channels { assert ChannelOk(s.channels[tx], |s.jobs|); }
        NoSuchJob(LogOf(s.channels, tx), |s.jobs|);
      }
    }
  }

  lemma Appended(attempts: seq<Attempt>, a: Attempt, log: seq<Entry>, e: Entry, id: nat, tx: nat)
    ensures AcceptedOn(attempts + [a], tx) == AcceptedOn(attempts, tx) + if a.accepted && a.tx == tx then [a.key.sub] else []
    ensures OfJob(log + [e], id) == OfJob(log, id) + if e.job == id then [e.sub] else []
  {
    assert (attempts + [a])[..|attempts|] == attempts;
    assert (log + [e])[..|log|] == log;
  }

  lemma LogsTrySend(s: State, id: nat)
    requires LogsMatch(s) && JobsOk(s) && Enabled(s, TrySend(id))
    ensures LogsMatch(After(s, TrySend(id)))
  {
    var t, j := After(s, TrySend(id)), s.jobs[id];
    var target, key := j.targets[|j.attempts|], j.order[|j.attempts|];
    var accepted := Takes(s.channels, target.tx);
    assert JobOk(j) && target.sub == key.sub;
    forall k, tx | 0 <= k < |t.jobs| ensures Agrees(t.jobs[k].attempts, k, LogOf(t.channels, tx), tx) {
      assert Agrees(s.jobs[k].attempts, k, LogOf(s.channels, tx), tx);
      Appended(j.attempts, Attempt(key, target.tx, accepted), LogOf(s.channels, tx), Entry(id, target.sub), k, tx);
    }
  }

  lemma LogsStep(s: State, step: Step)
    requires LogsMatch(s) && ChannelsOk(s) && JobsOk(s) && Enabled(s, step)
    ensures LogsMatch(After(s, step))
  {
    if step.Begin? { LogsBegin(s, step.publisher, step.envelope); }
    else if step.TrySend? { LogsTrySend(s, step.id); }
    else {
      var t := After(s, step);
      forall id, tx | 0 <= id < |t.jobs| ensures Agrees(t.jobs[id].attempts, id, LogOf(t.channels, tx), tx) {
        assert Agrees(s.jobs[id].attempts, id, LogOf(s.channels, tx), tx);
        assert t.jobs[id].attempts == s.jobs[id].attempts && LogOf(t.channels, tx) == LogOf(s.channels, tx);
      }
    }
  }

  /** One publisher's publishes enter a channel in the order it made them. */
  ghost predicate InOrder(s: State) {
    forall tx :: tx in s.channels ==> OrderedLog(s.channels[tx].log, s.jobs)
  }

  predicate Follows(first: nat, second: nat, jobs: seq<Job>) {
    first < |jobs| && second < |jobs| && (jobs[first].publisher == jobs[second].publisher ==> first <= second)
  }

  ghost predicate OrderedLog(log: seq<Entry>, jobs: seq<Job>) {
    forall a, b :: 0 <= a < b < |log| ==> Follows(log[a].job, log[b].job, jobs)
  }

  lemma {:induction false} OrderedMore(log: seq<Entry>, jobs: seq<Job>, more: seq<Job>)
    requires OrderedLog(log, jobs) && |jobs| <= |more| && forall i :: 0 <= i < |jobs| ==> more[i].publisher == jobs[i].publisher
    ensures OrderedLog(log, more)
  {
    forall a, b | 0 <= a < b < |log| ensures Follows(log[a].job, log[b].job, more) {
      assert Follows(log[a].job, log[b].job, jobs);
    }
  }

  /** A later publish by the same publisher would mean this one had returned. */
  lemma OrderedAppend(s: State, log: seq<Entry>, e: Entry)
    requires OrderedLog(log, s.jobs) && OneAtATime(s) && e.job < |s.jobs| && !s.jobs[e.job].phase.Finished?
    requires forall i :: 0 <= i < |log| ==> log[i].job < |s.jobs|
    ensures OrderedLog(log + [e], s.jobs)
  {
    var grown := log + [e];
    forall a, b | 0 <= a < b < |grown| ensures Follows(grown[a].job, grown[b].job, s.jobs) {
      if b < |log| { assert Follows(log[a].job, log[b].job, s.jobs); }
    }
  }

  lemma InOrderStep(s: State, step: Step)
    requires InOrder(s) && ChannelsOk(s) && OneAtATime(s) && Enabled(s, step)
    ensures InOrder(After(s, step))
  {
    var t := After(s, step);
    assert forall i :: 0 <= i < |s.jobs| ==> t.jobs[i].publisher == s.jobs[i].publisher;
    forall tx | tx in t.channels ensures OrderedLog(t.channels[tx].log, t.jobs) {
      if tx in s.channels {
        var log := s.channels[tx].log;
        assert OrderedLog(log, s.jobs) && ChannelOk(s.channels[tx], |s.jobs|);
        OrderedMore(log, s.jobs, t.jobs);
        if step.TrySend? && t.channels[tx].log != log {
          var e := Entry(step.id, s.jobs[step.id].targets[|s.jobs[step.id].attempts|].sub);
          OrderedAppend(s, log, e);
          OrderedMore(log + [e], s.jobs, t.jobs);
        }
      }
    }
  }

  // ---- Every run -----------------------------------------------------------------------

  ghost predicate Good(s: State) {
    JobsOk(s) && Counted(s) && OneAtATime(s) && ChannelsOk(s) && LogsMatch(s) && InOrder(s)
  }

  lemma {:induction false} RunsAreGood(states: seq<State>, steps: seq<Step>, i: nat)
    requires Run(states, steps) && i < |states|
    ensures Good(states[i])
  {
    if i > 0 {
      RunsAreGood(states, steps, i - 1);
      var s, step := states[i - 1], steps[i - 1];
      JobsStep(s, step);
      CountedStep(s, step);
      OneAtATimeStep(s, step);
      ChannelsStep(s, step);
      LogsStep(s, step);
      InOrderStep(s, step);
    }
  }

  function Keys(attempts: seq<Attempt>): seq<Key> {
    seq(|attempts|, i requires 0 <= i < |attempts| => attempts[i].key)
  }

  /** In every run, a publish that has returned tried every subscription of its snapshot
      once, and delivered and dropped add up to what it matched. */
  lemma EachTriedOnce(states: seq<State>, steps: seq<Step>, i: nat, id: nat)
    requires Run(states, steps) && i < |states|
    requires id < |states[i].jobs| && states[i].jobs[id].phase.Finished?
    ensures var j := states[i].jobs[id];
            && Enumerates(Keys(j.attempts), Matching(j.seen, j.envelope.route))
            && j.sent + j.lost == |Matching(j.seen, j.envelope.route)|
            && j.sent == CountAccepted(j.attempts)
  {
    RunsAreGood(states, steps, i);
    var j := states[i].jobs[id];
    assert JobOk(j);
    assert Keys(j.attempts) == j.order;
    EnumerationLength(j.order, Matching(j.seen, j.envelope.route));
  }

  /** In every run, once nothing is in flight, the counters sum to all that was matched. */
  lemma CountersAddUp(states: seq<State>, steps: seq<Step>, i: nat)
    requires Run(states, steps) && i < |states|
    requires forall k :: 0 <= k < |states[i].jobs| ==> states[i].jobs[k].phase.Finished?
    ensures states[i].published == |states[i].jobs|
    ensures states[i].delivered + states[i].dropped == TotalMatched(states[i].jobs)
  {
    RunsAreGood(states, steps, i);
    FinishedTotals(states[i].jobs);
  }

  /** In every run, one publisher's envelopes sit in every channel in publish order, each
      as often as that publish had it accepted there. */
  lemma PublishOrderIsKept(states: seq<State>, steps: seq<Step>, i: nat, tx: nat, a: nat, b: nat)
    requires Run(states, steps) && i < |states|
    requires tx in states[i].channels && a < b < |states[i].channels[tx].log|
    ensures var s := states[i];
            var log := s.channels[tx].log;
            && Follows(log[a].job, log[b].job, s.jobs)
            && OfJob(log, log[a].job) == AcceptedOn(s.jobs[log[a].job].attempts, tx)
  {
    RunsAreGood(states, steps, i);
    var s := states[i];
    var log := s.channels[tx].log;
    assert OrderedLog(log, s.jobs);
    assert Follows(log[a].job, log[b].job, s.jobs);
    assert Agrees(s.jobs[log[a].job].attempts, log[a].job, LogOf(s.channels, tx), tx);
  }

  /** A publish keeps its envelope, and its snapshot once taken. */
  lemma JobMoves(s: State, step: Step, id: nat)
    requires Enabled(s, step) && id < |After(s, step).jobs|
    ensures var j := After(s, step).jobs[id];
            if id >= |s.jobs| then j.phase.Begun?
            else
              && j.envelope == s.jobs[id].envelope
              && (!s.jobs[id].phase.Begun? ==> j.seen == s.jobs[id].seen)
              && (s.jobs[id].phase.Begun? && !j.phase.Begun? ==> j.seen == s.table)
  {
  }

  /** A publish's snapshot is the table as it was at one moment of the run, after the publish
      began and before it tried anything. */
  lemma {:induction false} SnapshotMoment(states: seq<State>, steps: seq<Step>, i: nat, id: nat) returns (k: nat)
    requires Run(states, steps) && i < |states|
    requires id < |states[i].jobs| && !states[i].jobs[id].phase.Begun?
    ensures k < i && id < |states[k].jobs| && states[k].jobs[id].phase.Begun?
    ensures states[i].jobs[id].seen == states[k].table
    ensures states[i].jobs[id].envelope == states[k].jobs[id].envelope
  {
    var s := states[i - 1];
    assert states[i] == After(s, steps[i - 1]);
    JobMoves(s, steps[i - 1], id);
    if id < |s.jobs| && !s.jobs[id].phase.Begun? {
      k := SnapshotMoment(states, steps, i - 1, id);
    } else {
      k := i - 1;
    }
  }

  /** In every run a subscription stays as it was made until it is removed: a second one of the
      same key changes nothing. */
  lemma EntriesStand(states: seq<State>, steps: seq<Step>, i: nat, key: Key)
    requires Run(states, steps) && i < |steps| && key in states[i].table
    ensures key in states[i + 1].table ==> states[i + 1].table[key] == states[i].table[key]
    ensures key !in states[i + 1].table ==> steps[i] == Unsubscribe(key) || steps[i] == DropAdapter(key.adapter)
    ensures steps[i] == Unsubscribe(key) || steps[i] == DropAdapter(key.adapter) ==> key !in states[i + 1].table
  {
    assert Enabled(states[i], steps[i]) && states[i + 1] == After(states[i], steps[i]);
  }

  /** What is in a channel and not yet taken out. */
  function Waiting(c: Channel): int {
    |c.log| - c.received
  }

  /** In every run no channel ever holds more than its capacity. */
  lemma {:induction false} NeverOverfull(states: seq<State>, steps: seq<Step>, i: nat, tx: nat)
    requires Run(states, steps) && i < |states| && tx in states[i].channels
    ensures 0 <= Waiting(states[i].channels[tx]) <= states[i].channels[tx].capacity
  {
    if i > 0 {
      var s, step := states[i - 1], steps[i - 1];
      assert Enabled(s, step) && states[i] == After(s, step);
      if tx in s.channels { NeverOverfull(states, steps, i - 1, tx); }
    }
  }

  /** In every run an attempt is refused exactly when the channel is gone, closed or full, and an
      accepted one puts its entry last. */
  lemma RefusedWhenFull(states: seq<State>, steps: seq<Step>, i: nat, id: nat)
    requires Run(states, steps) && i < |steps| && steps[i] == TrySend(id)
    ensures var s, t := states[i], states[i + 1];
            && id < |s.jobs| && id < |t.jobs| && |t.jobs[id].attempts| == |s.jobs[id].attempts| + 1
            && var a := t.jobs[id].attempts[|s.jobs[id].attempts|];
            && (!a.accepted <==> a.tx !in s.channels || !s.channels[a.tx].open || Waiting(s.channels[a.tx]) == s.channels[a.tx].capacity)
            && (a.accepted ==> a.tx in t.channels && t.channels[a.tx].log == s.channels[a.tx].log + [Entry(id, a.key.sub)])
            && (!a.accepted ==> t.channels == s.channels)
  {
    assert Enabled(states[i], steps[i]) && states[i + 1] == After(states[i], steps[i]);
    RunsAreGood(states, steps, i);
    var j := states[i].jobs[id];
    assert JobOk(j);
    var tx := j.targets[|j.attempts|].tx;
    if tx in states[i].channels { NeverOverfull(states, steps, i, tx); }
  }
}
