/** What the swarm answers, counts and lists after any run, told by the steps of the run. */
module SwarmHistory {
  import opened Bytes
  import opened Swarm
  import opened SwarmRuns
  import Dialer

  // The last step of a run

  lemma {:induction false} LastStep(w: World, steps: seq<Step>)
    requires Executable(w, steps) && steps != []
    ensures var n := |steps| - 1;
            && Executable(w, steps[..n]) && Enabled(Final(w, steps[..n]), steps[n])
            && Final(w, steps) == Take(Final(w, steps[..n]), steps[n])
    decreases |steps|
  {
    hide Take, Enabled;
    var n := |steps| - 1;
    if n > 0 {
      LastStep(Take(w, steps[0]), steps[1..]);
      assert steps[1..][..n - 1] == steps[..n][1..] && steps[1..][n - 1] == steps[n];
    }
  }

  // Answers

  /** A dial's verdict, as its callback hears it. */
  predicate Tells(answer: Answer, v: Dialer.Verdict) {
    match v
    case Ok(peer) => answer.Ok? && answer.value.peer == peer
    case Err(e) => answer == Err(DialFailed(e))
  }

  predicate EndsWith(step: Step, tid: TransactionId, v: Dialer.Verdict) {
    && step.DialEnds? && step.tid == tid && |step.rounds| >= Dialer.Rounds(step.attempts)
    && v == Dialer.DialVerdict(step.rounds, step.attempts)
  }

  /** The dial ended with this verdict in one of the steps. */
  predicate Ended(past: seq<Step>, tid: TransactionId, v: Dialer.Verdict) {
    exists i :: 0 <= i < |past| && EndsWith(past[i], tid, v)
  }

  ghost predicate Told(past: seq<Step>, tid: TransactionId, answer: Answer) {
    exists v :: Ended(past, tid, v) && Tells(answer, v)
  }

  ghost predicate Announced(past: seq<Step>, tid: TransactionId, e: Event) {
    exists v :: Ended(past, tid, v) && e == DialEvent(tid, v)
  }

  /** Every queued ending announces, and every answer tells, how its dial ended. */
  ghost predicate Informed(w: World, past: seq<Step>) {
    && (forall e, tid :: e in w.queue && EndsDial(e, tid) ==> Announced(past, tid, e))
    && (forall a :: a in w.swarm.answers ==> Told(past, a.0, a.1))
  }

  lemma EndedLater(past: seq<Step>, step: Step, tid: TransactionId, v: Dialer.Verdict)
    ensures Ended(past, tid, v) ==> Ended(past + [step], tid, v)
    ensures EndsWith(step, tid, v) ==> Ended(past + [step], tid, v)
  {
    var all := past + [step];
    if i :| 0 <= i < |past| && EndsWith(past[i], tid, v) { assert EndsWith(all[i], tid, v); }
    if EndsWith(step, tid, v) { assert EndsWith(all[|past|], tid, v); }
  }

  lemma AnnouncedLater(past: seq<Step>, step: Step, tid: TransactionId, e: Event)
    ensures Announced(past, tid, e) ==> Announced(past + [step], tid, e)
  {
    hide Ended;
    if v :| Ended(past, tid, v) && e == DialEvent(tid, v) { EndedLater(past, step, tid, v); }
  }

  lemma ToldLater(past: seq<Step>, step: Step, tid: TransactionId, answer: Answer)
    ensures Told(past, tid, answer) ==> Told(past + [step], tid, answer)
  {
    hide Ended, Tells;
    if v :| Ended(past, tid, v) && Tells(answer, v) { EndedLater(past, step, tid, v); }
  }

  /** The events and answers that a step adds. */
  lemma StepAdds(w: World, step: Step)
    requires Inv(w) && Enabled(w, step)
    ensures var t := Take(w, step);
            && (forall e, tid :: e in t.queue && EndsDial(e, tid) ==>
                  || e in w.queue
                  || (exists v :: EndsWith(step, tid, v) && e == DialEvent(tid, v)))
            && (forall a :: a in t.swarm.answers ==>
                  || a in w.swarm.answers
                  || (step.HandleEvent? && EndsDial(w.queue[0], a.0) && Carries(w.queue[0], a.1)))
  {
    hide Inv, IndexesAgree, StatsAgree, RoundsOf;
    var t := Take(w, step);
    match step
    case DialEnds(tid, rounds, attempts) =>
      assert EndsWith(step, tid, Dialer.DialVerdict(rounds, attempts));
    case HandleEvent =>
      HandledAnswers(w);
    case _ =>
  }

  /** The answer an ending event leads to. */
  predicate Carries(e: Event, answer: Answer) {
    match e
    case ConnectionEstablished(peer, _, _) => answer.Ok? && answer.value.peer == peer
    case OutgoingConnectionError(_, error) => answer == Err(error)
    case _ => false
  }

  lemma HandledAnswers(w: World)
    requires w.queue != []
    ensures var t := Handled(w, w.queue[0], w.queue[1..]);
            && (forall e :: e in t.queue ==> e in w.queue)
            && forall a :: a in t.swarm.answers ==>
                 a in w.swarm.answers || (EndsDial(w.queue[0], a.0) && Carries(w.queue[0], a.1))
  {
    hide Conns, Without;
  }

  lemma CarriedIsTold(past: seq<Step>, tid: TransactionId, e: Event, answer: Answer)
    requires Announced(past, tid, e) && EndsDial(e, tid) && Carries(e, answer)
    ensures Told(past, tid, answer)
  {
    hide Ended;
    var v :| Ended(past, tid, v) && e == DialEvent(tid, v);
    assert Tells(answer, v);
  }

  lemma StepInforms(w: World, past: seq<Step>, step: Step)
    requires Inv(w) && Enabled(w, step) && Informed(w, past)
    ensures Informed(Take(w, step), past + [step])
  {
    hide Inv, Take, Announced, Told, EndsWith, Carries, EndsDial;
    NonEmpty(w, step);
    StepAdds(w, step);
    var t := Take(w, step);
    forall e, tid | e in t.queue && EndsDial(e, tid) ensures Announced(past + [step], tid, e) {
      if e in w.queue {
        AnnouncedLater(past, step, tid, e);
      } else {
        NewlyAnnounced(past, step, tid, e);
      }
    }
    forall a | a in t.swarm.answers ensures Told(past + [step], a.0, a.1) {
      if a !in w.swarm.answers { CarriedIsTold(past, a.0, w.queue[0], a.1); }
      ToldLater(past, step, a.0, a.1);
    }
  }

  lemma NonEmpty(w: World, step: Step)
    requires Enabled(w, step)
    ensures step.HandleEvent? ==> w.queue != []
  {
  }

  lemma NewlyAnnounced(past: seq<Step>, step: Step, tid: TransactionId, e: Event)
    requires exists v :: EndsWith(step, tid, v) && e == DialEvent(tid, v)
    ensures Announced(past + [step], tid, e)
  {
    hide Ended;
    var v :| EndsWith(step, tid, v) && e == DialEvent(tid, v);
    EndedLater(past, step, tid, v);
  }

  lemma {:induction false} RunInforms(localPeer: PeerId, steps: seq<Step>)
    requires Executable(Init(localPeer), steps)
    ensures Informed(Final(Init(localPeer), steps), steps)
    decreases |steps|
  {
    hide Executable, Final, Informed, Inv, Take, Enabled, Init;
    NothingToTell(localPeer);
    if steps != [] {
      var n := |steps| - 1;
      LastStep(Init(localPeer), steps);
      RunInforms(localPeer, steps[..n]);
      InitHolds(localPeer);
      RunKeeps(Init(localPeer), steps[..n]);
      StepInforms(Final(Init(localPeer), steps[..n]), steps[..n], steps[n]);
      assert steps == steps[..n] + [steps[n]];
    }
  }

  lemma NothingToTell(localPeer: PeerId)
    ensures Executable(Init(localPeer), []) && Informed(Final(Init(localPeer), []), [])
  {
  }

  /** In every run each answer tells its callback how the dial ended: the verdict's peer, or the verdict's error. */
  lemma AnswersTellTheVerdict(localPeer: PeerId, steps: seq<Step>, tid: TransactionId, answer: Answer)
    requires Executable(Init(localPeer), steps)
    requires (tid, answer) in Final(Init(localPeer), steps).swarm.answers
    ensures exists i, v :: 0 <= i < |steps| && EndsWith(steps[i], tid, v) && Tells(answer, v)
  {
    hide Executable, Final;
    RunInforms(localPeer, steps);
    assert Told(steps, tid, answer);
    var v :| Ended(steps, tid, v) && Tells(answer, v);
    var i :| 0 <= i < |steps| && EndsWith(steps[i], tid, v);
  }

  // Counters

  /** The event that a step handles. */
  function HandledEvent(w: World, step: Step): Option<Event> {
    if step.HandleEvent? && w.queue != [] then Some(w.queue[0]) else None
  }

  predicate OpensInbound(e: Event) { e.ConnectionEstablished? && e.direction.Inbound? }

  predicate OpensOutbound(e: Event) { e.ConnectionEstablished? && e.direction.Outbound? }

  predicate Closes(e: Event) { e.ConnectionClosed? }

  predicate FailsDial(e: Event) { e.OutgoingConnectionError? }

  /** One if the step handles an event of the kind. */
  function Bump(w: World, step: Step, kind: Event -> bool): nat {
    var e := HandledEvent(w, step);
    One(e.Some? && kind(e.value))
  }

  /** How many events of a kind the run handles. */
  ghost function Count(w: World, steps: seq<Step>, kind: Event -> bool): nat
    requires Executable(w, steps)
    decreases |steps|
  {
    if steps == [] then 0 else Bump(w, steps[0], kind) + Count(Take(w, steps[0]), steps[1..], kind)
  }

  lemma StepCounts(w: World, step: Step)
    requires Inv(w) && Enabled(w, step) && !Take(w, step).panicked
    ensures var s, t := w.swarm.stats, Take(w, step).swarm.stats;
            && t.incomingOpened == s.incomingOpened + Bump(w, step, OpensInbound)
            && t.outgoingOpened == s.outgoingOpened + Bump(w, step, OpensOutbound)
            && t.closed == s.closed + Bump(w, step, Closes)
            && t.outgoingErrors == s.outgoingErrors + Bump(w, step, FailsDial)
  {
    hide Inv, Conns, Without, RoundsOf, Handled;
    if step.HandleEvent? { HandledCounts(w); }
  }

  predicate Counted(s: State, t: State, e: Event) {
    && t.stats.incomingOpened == s.stats.incomingOpened + One(OpensInbound(e))
    && t.stats.outgoingOpened == s.stats.outgoingOpened + One(OpensOutbound(e))
    && t.stats.closed == s.stats.closed + One(Closes(e))
    && t.stats.outgoingErrors == s.stats.outgoingErrors + One(FailsDial(e))
  }

  lemma OpenedCounts(s: State, peer: PeerId, direction: Direction, tid: Option<TransactionId>)
    requires OnOpened(s, peer, direction, tid).Some?
    ensures Counted(s, OnOpened(s, peer, direction, tid).value, ConnectionEstablished(peer, direction, tid))
  {
    hide Conns;
  }

  lemma ClosedCounts(s: State, cid: ConnectionId)
    ensures Counted(s, OnClosed(s, cid), ConnectionClosed(cid))
  {
    hide Without;
  }

  lemma HandledCounts(w: World)
    requires w.queue != [] && !Handled(w, w.queue[0], w.queue[1..]).panicked
    ensures Counted(w.swarm, Handled(w, w.queue[0], w.queue[1..]).swarm, w.queue[0])
  {
    hide OnOpened, OnClosed;
    match w.queue[0]
    case ConnectionEstablished(peer, direction, tid) => OpenedCounts(w.swarm, peer, direction, tid);
    case ConnectionClosed(cid) => ClosedCounts(w.swarm, cid);
    case StreamOpened(_, _) =>
    case OutgoingConnectionError(_, _) =>
  }

  lemma NoPanic(w: World)
    requires Inv(w)
    ensures !w.panicked
  {
  }

  lemma {:induction false} RunCounts(w: World, steps: seq<Step>)
    requires Inv(w) && Executable(w, steps)
    ensures var s, t := w.swarm.stats, Final(w, steps).swarm.stats;
            && t.incomingOpened == s.incomingOpened + Count(w, steps, OpensInbound)
            && t.outgoingOpened == s.outgoingOpened + Count(w, steps, OpensOutbound)
            && t.closed == s.closed + Count(w, steps, Closes)
            && t.outgoingErrors == s.outgoingErrors + Count(w, steps, FailsDial)
    decreases |steps|
  {
    hide Inv, Take, Enabled, HandledEvent;
    if steps != [] {
      SwarmRuns.StepKeeps(w, steps[0]);
      NoPanic(Take(w, steps[0]));
      StepCounts(w, steps[0]);
      RunCounts(Take(w, steps[0]), steps[1..]);
    }
  }

  /** In every run each counter is the number of events of its own kind that were handled. */
  lemma CountersTellTheEvents(localPeer: PeerId, steps: seq<Step>)
    requires Executable(Init(localPeer), steps)
    ensures var t := Final(Init(localPeer), steps).swarm.stats;
            && t.incomingOpened == Count(Init(localPeer), steps, OpensInbound)
            && t.outgoingOpened == Count(Init(localPeer), steps, OpensOutbound)
            && t.closed == Count(Init(localPeer), steps, Closes)
            && t.outgoingErrors == Count(Init(localPeer), steps, FailsDial)
  {
    InitHolds(localPeer);
    RunCounts(Init(localPeer), steps);
  }

  // Substreams

  /** What one step does to the list of a connection's substreams. */
  function StreamsAfter(w: World, step: Step, cid: ConnectionId, streams: seq<StreamId>): seq<StreamId> {
    match step
    case StreamCloses(c, sid) => if c == cid then Without(streams, sid) else streams
    case HandleEvent =>
      if w.queue == [] then streams
      else if w.queue[0].ConnectionEstablished? && w.swarm.nextConnectionId + 1 == cid then []
      else if w.queue[0].StreamOpened? && w.queue[0].cid == cid then streams + [w.queue[0].sid]
      else streams
    case _ => streams
  }

  /** The substreams opened since the connection was, in order, without those closed since. */
  ghost function Streams(localPeer: PeerId, steps: seq<Step>, cid: ConnectionId): seq<StreamId>
    requires Executable(Init(localPeer), steps)
    decreases |steps|
  {
    if steps == [] then []
    else
      var n := |steps| - 1;
      LastStep(Init(localPeer), steps);
      StreamsAfter(Final(Init(localPeer), steps[..n]), steps[n], cid, Streams(localPeer, steps[..n], cid))
  }

  /** The substreams of a connection after a step, from those before it; a new connection has none. */
  ghost predicate StreamsStep(w: World, t: State, step: Step, cid: ConnectionId) {
    cid in t.connectionsById ==>
      if cid in w.swarm.connectionsById
      then t.connectionsById[cid].substreams == StreamsAfter(w, step, cid, w.swarm.connectionsById[cid].substreams)
      else t.connectionsById[cid].substreams == [] && forall streams :: StreamsAfter(w, step, cid, streams) == []
  }

  lemma OpenedStreams(w: World, peer: PeerId, direction: Direction, tid: Option<TransactionId>, cid: ConnectionId)
    requires w.queue != [] && w.queue[0] == ConnectionEstablished(peer, direction, tid)
    requires w.swarm.nextConnectionId + 1 !in w.swarm.connectionsById
    ensures OnOpened(w.swarm, peer, direction, tid).Some? ==>
              StreamsStep(w, OnOpened(w.swarm, peer, direction, tid).value, HandleEvent, cid)
  {
    hide Conns;
  }

  lemma ClosedStreams(w: World, closed: ConnectionId, cid: ConnectionId)
    requires w.queue != [] && w.queue[0] == ConnectionClosed(closed)
    ensures StreamsStep(w, OnClosed(w.swarm, closed), HandleEvent, cid)
  {
    hide Without;
  }

  lemma StreamOpenedStreams(w: World, c: ConnectionId, sid: StreamId, cid: ConnectionId)
    requires w.queue != [] && w.queue[0] == StreamOpened(c, sid)
    ensures StreamsStep(w, OnStreamOpened(w.swarm, c, sid), HandleEvent, cid)
  {
  }

  lemma HandledStreams(w: World, cid: ConnectionId)
    requires w.queue != [] && !Handled(w, w.queue[0], w.queue[1..]).panicked
    requires w.swarm.nextConnectionId + 1 !in w.swarm.connectionsById
    ensures StreamsStep(w, Handled(w, w.queue[0], w.queue[1..]).swarm, HandleEvent, cid)
  {
    hide OnOpened, OnClosed, OnStreamOpened;
    match w.queue[0]
    case ConnectionEstablished(peer, direction, tid) => OpenedStreams(w, peer, direction, tid, cid);
    case ConnectionClosed(closed) => ClosedStreams(w, closed, cid);
    case StreamOpened(c, sid) => StreamOpenedStreams(w, c, sid, cid);
    case OutgoingConnectionError(_, _) =>
  }

  lemma StepStreams(w: World, step: Step, cid: ConnectionId)
    requires Inv(w) && Enabled(w, step) && !Take(w, step).panicked
    ensures StreamsStep(w, Take(w, step).swarm, step, cid)
  {
    FreshId(w);
    hide Inv, Handled, RoundsOf, Without;
    if step.HandleEvent? { HandledStreams(w, cid); }
  }

  /** In every run a connection's substreams are those opened on it, in order, without those closed since. */
  lemma {:induction false} SubstreamsTellTheEvents(localPeer: PeerId, steps: seq<Step>, cid: ConnectionId)
    requires Executable(Init(localPeer), steps) && cid in Final(Init(localPeer), steps).swarm.connectionsById
    ensures Final(Init(localPeer), steps).swarm.connectionsById[cid].substreams == Streams(localPeer, steps, cid)
    decreases |steps|
  {
    NoConnection(localPeer);
    hide Executable, Final, Inv, Take, Enabled, StreamsAfter, Init;
    var n := |steps| - 1;
    LastStep(Init(localPeer), steps);
    var w := Final(Init(localPeer), steps[..n]);
    InitHolds(localPeer);
    RunKeeps(Init(localPeer), steps[..n]);
    RunKeeps(Init(localPeer), steps);
    NoPanic(Final(Init(localPeer), steps));
    StepStreams(w, steps[n], cid);
    if cid in w.swarm.connectionsById { SubstreamsTellTheEvents(localPeer, steps[..n], cid); }
  }

  lemma NoConnection(localPeer: PeerId)
    ensures Executable(Init(localPeer), []) && Final(Init(localPeer), []).swarm.connectionsById == map[]
  {
  }
}
