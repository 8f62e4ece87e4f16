/** Every run of the swarm's event loop together with its dialer, its connection tasks and its event channel. */
module SwarmRuns {
  import opened Bytes
  import opened Swarm
  import Dialer

  /**
   * `queue` is the event channel, `live` the connections whose task still runs, `dialing` the dials handed to the
   * dialer that have not ended, and `asked` the peer every transaction was made for.
   */
  datatype World = World(
    swarm: State, queue: seq<Event>, live: set<ConnectionId>,
    dialing: map<TransactionId, PeerId>, asked: map<TransactionId, PeerId>, panicked: bool)

  datatype Step =
    | Dial(peer: PeerId)
    | DialEnds(tid: TransactionId, rounds: seq<Dialer.Verdict>, attempts: nat)
    | Accept(peer: PeerId)
    | ConnectionEnds(cid: ConnectionId)
    | StreamOpens(cid: ConnectionId, sid: StreamId)
    | StreamCloses(cid: ConnectionId, sid: StreamId)
    | HandleEvent

  function Init(localPeer: PeerId): World {
    World(New(localPeer), [], {}, map[], map[], false)
  }

  /** The rounds of a dial: each ends early or as some run of its jobs and its collector ends. */
  ghost predicate RoundsOf(rounds: seq<Dialer.Verdict>, peer: PeerId) {
    forall v :: v in rounds ==> Dialer.RoundEnds(peer, v)
  }

  /** So a dial that succeeds does so with the wanted peer. */
  lemma DialNamesPeer(rounds: seq<Dialer.Verdict>, attempts: nat, peer: PeerId)
    requires |rounds| >= Dialer.Rounds(attempts) && RoundsOf(rounds, peer)
    ensures var v := Dialer.DialVerdict(rounds, attempts); v.Ok? ==> v.value == peer
  {
    hide Dialer.RoundEnds;
    Dialer.DialSucceedsIffARoundDoes(rounds, attempts);
    var v := Dialer.DialVerdict(rounds, attempts);
    if v.Ok? { Dialer.RoundNamesPeer(peer, v); }
  }

  ghost predicate Enabled(w: World, step: Step) {
    && !w.panicked
    && match step
       case Dial(peer) => peer != w.swarm.localPeer
       case DialEnds(tid, rounds, attempts) =>
         tid in w.dialing && |rounds| >= Dialer.Rounds(attempts) && RoundsOf(rounds, w.dialing[tid])
       case ConnectionEnds(cid) => cid in w.live
       case HandleEvent => w.queue != []
       case _ => true
  }

  /** The one event a dial sends. */
  function DialEvent(tid: TransactionId, v: Dialer.Verdict): Event {
    match v
    case Ok(peer) => ConnectionEstablished(peer, Outbound, Some(tid))
    case Err(e) => OutgoingConnectionError(tid, DialFailed(e))
  }

  function Handled(w: World, e: Event, rest: seq<Event>): World {
    match OnEvent(w.swarm, e)
    case None => w.(panicked := true)
    case Some(next) =>
      w.(swarm := next, queue := rest,
         live := if e.ConnectionEstablished? then w.live + {next.nextConnectionId} else w.live)
  }

  function Take(w: World, step: Step): World
    requires Enabled(w, step)
  {
    match step
    case Dial(peer) =>
      var tid := w.swarm.nextTid + 1;
      w.(swarm := OnDial(w.swarm), dialing := w.dialing[tid := peer], asked := w.asked[tid := peer])
    case DialEnds(tid, rounds, attempts) =>
      w.(dialing := w.dialing - {tid}, queue := w.queue + [DialEvent(tid, Dialer.DialVerdict(rounds, attempts))])
    case Accept(peer) => w.(queue := w.queue + [ConnectionEstablished(peer, Inbound, None)])
    case ConnectionEnds(cid) => w.(live := w.live - {cid}, queue := w.queue + [ConnectionClosed(cid)])
    case StreamOpens(cid, sid) => w.(queue := w.queue + [StreamOpened(cid, sid)])
    case StreamCloses(cid, sid) => w.(swarm := OnStreamClosed(w.swarm, cid, sid))
    case HandleEvent => Handled(w, w.queue[0], w.queue[1..])
  }

  function One(b: bool): nat { if b then 1 else 0 }

  predicate EndsDial(e: Event, tid: TransactionId) {
    (e.ConnectionEstablished? && e.tid == Some(tid)) || (e.OutgoingConnectionError? && e.dial == tid)
  }

  /** How many queued events close a connection, and how many end a dial. */
  function Closings(queue: seq<Event>, cid: ConnectionId): nat {
    if queue == [] then 0 else One(queue[0] == ConnectionClosed(cid)) + Closings(queue[1..], cid)
  }

  function Endings(queue: seq<Event>, tid: TransactionId): nat {
    if queue == [] then 0 else One(EndsDial(queue[0], tid)) + Endings(queue[1..], tid)
  }

  function Answers(answers: seq<(TransactionId, Answer)>, tid: TransactionId): nat {
    if answers == [] then 0
    else Answers(answers[..|answers| - 1], tid) + One(answers[|answers| - 1].0 == tid)
  }

  lemma {:induction false} Queued(queue: seq<Event>, e: Event, cid: ConnectionId, tid: TransactionId)
    ensures Closings(queue + [e], cid) == Closings(queue, cid) + One(e == ConnectionClosed(cid))
    ensures Endings(queue + [e], tid) == Endings(queue, tid) + One(EndsDial(e, tid))
  {
    if queue == [] {
      assert queue + [e] == [e];
    } else {
      Queued(queue[1..], e, cid, tid);
      assert (queue + [e])[1..] == queue[1..] + [e];
    }
  }

  /** Every open connection has its task running or its closing event queued, never both and never twice. */
  ghost predicate ClosingsMatch(w: World) {
    forall cid: ConnectionId :: Closings(w.queue, cid) + One(cid in w.live) == One(cid in w.swarm.connectionsById)
  }

  /** Every pending transaction is being dialed or has its ending event queued, never both and never twice. */
  ghost predicate EndingsMatch(w: World) {
    forall tid: TransactionId :: Endings(w.queue, tid) + One(tid in w.dialing) == One(tid in w.swarm.dialTransactions)
  }

  /** Every transaction ever made is pending or has been answered, exactly once. */
  ghost predicate AnswersMatch(w: World) {
    forall tid: TransactionId ::
      Answers(w.swarm.answers, tid) + One(tid in w.swarm.dialTransactions) == One(0 < tid <= w.swarm.nextTid)
  }

  predicate PeerAsked(w: World, tid: TransactionId, peer: PeerId) {
    tid in w.asked && w.asked[tid] == peer
  }

  /** What is dialed, queued and answered carries the peer that was asked for. */
  ghost predicate PeersMatch(w: World) {
    && (forall tid: TransactionId :: tid in w.asked <==> 0 < tid <= w.swarm.nextTid)
    && (forall tid: TransactionId :: tid in w.dialing ==> PeerAsked(w, tid, w.dialing[tid]))
    && (forall e :: e in w.queue && e.ConnectionEstablished? && e.tid.Some? ==> PeerAsked(w, e.tid.value, e.peer))
    && (forall a :: a in w.swarm.answers && a.1.Ok? ==> PeerAsked(w, a.0, a.1.value.peer))
  }

  ghost predicate Inv(w: World) {
    && !w.panicked && w.swarm.warnings == 0
    && IndexesAgree(w.swarm) && StatsAgree(w.swarm)
    && ClosingsMatch(w) && EndingsMatch(w) && AnswersMatch(w) && PeersMatch(w)
  }

  lemma QueuedKeeps(w: World, t: World, e: Event)
    requires Inv(w) && t.swarm == w.swarm && t.asked == w.asked && t.queue == w.queue + [e] && !t.panicked
    requires forall cid: ConnectionId :: One(cid in t.live) + One(e == ConnectionClosed(cid)) == One(cid in w.live)
    requires forall tid: TransactionId :: One(tid in t.dialing) + One(EndsDial(e, tid)) == One(tid in w.dialing)
    requires forall tid: TransactionId :: tid in t.dialing ==> tid in w.dialing && t.dialing[tid] == w.dialing[tid]
    requires e.ConnectionEstablished? && e.tid.Some? ==> PeerAsked(w, e.tid.value, e.peer)
    ensures Inv(t)
  {
    hide IndexesAgree, StatsAgree, Closings, Endings, EndsDial, Answers, One;
    forall cid: ConnectionId
      ensures Closings(t.queue, cid) + One(cid in t.live) == One(cid in t.swarm.connectionsById)
    {
      Queued(w.queue, e, cid, 0);
    }
    forall tid: TransactionId
      ensures Endings(t.queue, tid) + One(tid in t.dialing) == One(tid in t.swarm.dialTransactions)
    {
      Queued(w.queue, e, 0, tid);
    }
    assert PeersMatch(t);
  }

  lemma Answered(answers: seq<(TransactionId, Answer)>, tid: TransactionId, answer: Answer, id: TransactionId)
    ensures Answers(answers + [(tid, answer)], id) == Answers(answers, id) + One(tid == id)
  {
    assert (answers + [(tid, answer)])[..|answers|] == answers;
  }

  predicate Accounted(w: World, t: World, e: Event, cid: ConnectionId) {
    One(cid in t.swarm.connectionsById) + One(e == ConnectionClosed(cid)) + One(cid in w.live)
      == One(cid in w.swarm.connectionsById) + One(cid in t.live)
  }

  predicate EndsAccounted(w: World, t: World, e: Event, tid: TransactionId) {
    One(tid in t.swarm.dialTransactions) + One(EndsDial(e, tid)) == One(tid in w.swarm.dialTransactions)
  }

  /** Taking an event off the queue, given that the swarm changed exactly what the event accounts for. */
  lemma HandledKeeps(w: World, t: World, e: Event)
    requires Inv(w) && w.queue != [] && e == w.queue[0] && t.queue == w.queue[1..]
    requires !t.panicked && t.swarm.warnings == 0 && IndexesAgree(t.swarm) && StatsAgree(t.swarm)
    requires t.dialing == w.dialing && t.asked == w.asked && t.swarm.nextTid == w.swarm.nextTid
    requires forall cid: ConnectionId :: Accounted(w, t, e, cid)
    requires forall tid: TransactionId :: EndsAccounted(w, t, e, tid)
    requires forall tid: TransactionId ::
                 Answers(t.swarm.answers, tid) == Answers(w.swarm.answers, tid) + One(EndsDial(e, tid))
    requires forall a :: a in t.swarm.answers && a.1.Ok? ==> PeerAsked(w, a.0, a.1.value.peer)
    ensures Inv(t)
  {
    hide IndexesAgree, EndsDial, Answers, One, StatsAgree;
    forall cid: ConnectionId
      ensures Closings(t.queue, cid) + One(cid in t.live) == One(cid in t.swarm.connectionsById)
    {
      assert Accounted(w, t, e, cid);
    }
    forall tid: TransactionId
      ensures Endings(t.queue, tid) + One(tid in t.dialing) == One(tid in t.swarm.dialTransactions)
      ensures Answers(t.swarm.answers, tid) + One(tid in t.swarm.dialTransactions) == One(0 < tid <= t.swarm.nextTid)
    {
      assert EndsAccounted(w, t, e, tid);
    }
    assert PeersMatch(t);
  }

  lemma FreshId(w: World)
    requires Inv(w)
    ensures var cid := w.swarm.nextConnectionId + 1; cid !in w.swarm.connectionsById && cid !in w.live
  {
    var cid := w.swarm.nextConnectionId + 1;
    assert Closings(w.queue, cid) + One(cid in w.live) == One(cid in w.swarm.connectionsById);
  }

  lemma QueuedTransaction(w: World, tid: TransactionId)
    requires Inv(w) && w.queue != [] && EndsDial(w.queue[0], tid)
    ensures tid in w.swarm.dialTransactions
    ensures w.queue[0].ConnectionEstablished? ==> PeerAsked(w, tid, w.queue[0].peer)
  {
    assert Endings(w.queue, tid) > 0;
  }

  lemma OpenedEffect(w: World, t: World, e: Event)
    requires e.ConnectionEstablished? && w.queue != [] && t == Handled(w, e, w.queue[1..])
    requires e.tid.Some? ==> e.tid.value in w.swarm.dialTransactions
    ensures var id := w.swarm.nextConnectionId + 1;
            && t.live == w.live + {id}
            && (forall cid :: cid in t.swarm.connectionsById <==> cid in w.swarm.connectionsById || cid == id)
    ensures t.swarm.dialTransactions ==
            if e.tid.Some? then w.swarm.dialTransactions - {e.tid.value} else w.swarm.dialTransactions
  {
    hide Conns;
  }

  lemma OpenedAccounts(w: World, t: World, e: Event)
    requires Inv(w) && w.queue != [] && e == w.queue[0] && e.ConnectionEstablished? && t == Handled(w, e, w.queue[1..])
    requires e.tid.Some? ==> e.tid.value in w.swarm.dialTransactions
    ensures forall cid: ConnectionId :: Accounted(w, t, e, cid)
    ensures forall tid: TransactionId :: EndsAccounted(w, t, e, tid)
  {
    hide Inv, Handled;
    FreshId(w);
    OpenedEffect(w, t, e);
  }

  lemma OpenedAnswers(w: World, t: World, e: Event)
    requires Inv(w) && w.queue != [] && e == w.queue[0] && e.ConnectionEstablished? && t == Handled(w, e, w.queue[1..])
    requires e.tid.Some? ==> e.tid.value in w.swarm.dialTransactions && PeerAsked(w, e.tid.value, e.peer)
    ensures forall tid: TransactionId ::
                Answers(t.swarm.answers, tid) == Answers(w.swarm.answers, tid) + One(EndsDial(e, tid))
    ensures forall a :: a in t.swarm.answers && a.1.Ok? ==> PeerAsked(w, a.0, a.1.value.peer)
  {
    hide Inv, Answers, Conns, PeerAsked, Handled, EndsDial;
    AnsweredPeers(w);
    OpenedAppends(w, t, e);
    var answers := w.swarm.answers;
    forall id: TransactionId ensures Answers(t.swarm.answers, id) == Answers(answers, id) + One(EndsDial(e, id)) {
      OpenedEnds(e, id);
      if e.tid.Some? { Answered(answers, e.tid.value, Ok(Handle(t.swarm.nextConnectionId, e.peer)), id); }
    }
  }

  lemma AnsweredPeers(w: World)
    requires Inv(w)
    ensures forall a :: a in w.swarm.answers && a.1.Ok? ==> PeerAsked(w, a.0, a.1.value.peer)
  {
    hide IndexesAgree, StatsAgree, ClosingsMatch, EndingsMatch, AnswersMatch;
  }

  lemma OpenedAppends(w: World, t: World, e: Event)
    requires e.ConnectionEstablished? && w.queue != [] && t == Handled(w, e, w.queue[1..])
    requires e.tid.Some? ==> e.tid.value in w.swarm.dialTransactions
    ensures t.swarm.answers ==
            if e.tid.None? then w.swarm.answers
            else w.swarm.answers + [(e.tid.value, Ok(Handle(t.swarm.nextConnectionId, e.peer)))]
  {
    hide Conns;
  }

  lemma OpenedEnds(e: Event, id: TransactionId)
    requires e.ConnectionEstablished?
    ensures EndsDial(e, id) <==> e.tid == Some(id)
  {
  }

  lemma OpenedKeeps(w: World, peer: PeerId, direction: Direction, tid: Option<TransactionId>)
    requires Inv(w) && w.queue != [] && w.queue[0] == ConnectionEstablished(peer, direction, tid)
    ensures Inv(Handled(w, w.queue[0], w.queue[1..]))
  {
    var e := w.queue[0];
    assert w.swarm.warnings == 0 && !w.panicked && IndexesAgree(w.swarm) && StatsAgree(w.swarm);
    if tid.Some? { QueuedTransaction(w, tid.value); }
    OpenedKeepsIndexes(w.swarm, peer, direction, tid);
    var t := Handled(w, e, w.queue[1..]);
    OpenedAccounts(w, t, e);
    OpenedAnswers(w, t, e);
    hide IndexesAgree, StatsAgree, Answers, Inv, Accounted, EndsAccounted, Conns;
    HandledKeeps(w, t, e);
  }

  lemma ClosedKeeps(w: World, cid: ConnectionId)
    requires Inv(w) && w.queue != [] && w.queue[0] == ConnectionClosed(cid)
    ensures Inv(Handled(w, w.queue[0], w.queue[1..]))
  {
    hide IndexesAgree, StatsAgree, Answers, Endings, PeersMatch;
    assert Closings(w.queue, cid) > 0;
    assert cid in w.swarm.connectionsById && cid !in w.live;
    hide Closings;
    ClosedKeepsIndexes(w.swarm, cid);
    var t := Handled(w, w.queue[0], w.queue[1..]);
    ClosedEffect(w.swarm, cid);
    AnsweredPeers(w);
    hide Inv, OnClosed;
    HandledKeeps(w, t, w.queue[0]);
  }

  lemma ClosedEffect(s: State, cid: ConnectionId)
    requires cid in s.connectionsById
    ensures var t := OnClosed(s, cid);
            && t.connectionsById.Keys == s.connectionsById.Keys - {cid}
            && t.dialTransactions == s.dialTransactions && t.answers == s.answers && t.nextTid == s.nextTid
  {
    hide Without;
  }

  lemma DialErrorKeeps(w: World, tid: TransactionId, error: SwarmError)
    requires Inv(w) && w.queue != [] && w.queue[0] == OutgoingConnectionError(tid, error)
    ensures Inv(Handled(w, w.queue[0], w.queue[1..]))
  {
    hide IndexesAgree, StatsAgree, Answers, Closings;
    var e := w.queue[0];
    assert Endings(w.queue, tid) > 0;
    assert tid in w.swarm.dialTransactions;
    hide Endings;
    var t := Handled(w, e, w.queue[1..]);
    forall id: TransactionId
      ensures Answers(t.swarm.answers, id) == Answers(w.swarm.answers, id) + One(EndsDial(e, id))
    {
      Answered(w.swarm.answers, tid, Err(error), id);
    }
    SameIndexes(w.swarm, t.swarm);
    hide Inv;
    HandledKeeps(w, t, e);
  }

  /** A change that leaves the peers of all connections alone keeps what is known of the indexes. */
  lemma SameIndexes(s: State, t: State)
    requires IndexesAgree(s) && StatsAgree(s)
    requires t.connectionsById.Keys == s.connectionsById.Keys && t.connectionsByPeer == s.connectionsByPeer
    requires forall cid :: cid in s.connectionsById ==> t.connectionsById[cid].peer == s.connectionsById[cid].peer
    requires t.nextConnectionId == s.nextConnectionId
    requires t.stats.incomingOpened == s.stats.incomingOpened && t.stats.outgoingOpened == s.stats.outgoingOpened
    requires t.stats.closed == s.stats.closed
    ensures IndexesAgree(t) && StatsAgree(t)
  {
    hide Distinct;
    assert |t.connectionsById| == |t.connectionsById.Keys| && |s.connectionsById| == |s.connectionsById.Keys|;
    assert forall p :: Conns(t, p) == Conns(s, p);
    hide Conns;
    forall p, cid ensures AgreeOn(t, p, cid) {
      assert AgreeOn(s, p, cid);
    }
  }

  lemma StreamOpenedKeeps(w: World, cid: ConnectionId, sid: StreamId)
    requires Inv(w) && w.queue != [] && w.queue[0] == StreamOpened(cid, sid)
    ensures Inv(Handled(w, w.queue[0], w.queue[1..]))
  {
    hide IndexesAgree, Answers, StatsAgree, Closings, Endings;
    SameIndexes(w.swarm, OnStreamOpened(w.swarm, cid, sid));
    HandledKeeps(w, Handled(w, w.queue[0], w.queue[1..]), w.queue[0]);
  }

  lemma StreamClosedKeeps(w: World, cid: ConnectionId, sid: StreamId)
    requires Inv(w)
    ensures Inv(w.(swarm := OnStreamClosed(w.swarm, cid, sid)))
  {
    hide IndexesAgree, Answers, StatsAgree, Without, Closings, Endings;
    SameIndexes(w.swarm, OnStreamClosed(w.swarm, cid, sid));
    var t := w.(swarm := OnStreamClosed(w.swarm, cid, sid));
    assert t.swarm.connectionsById.Keys == w.swarm.connectionsById.Keys;
    assert PeersMatch(t);
  }

  lemma NextTransaction(w: World)
    requires Inv(w)
    ensures var tid := w.swarm.nextTid + 1;
            Endings(w.queue, tid) == 0 && tid !in w.dialing && tid !in w.swarm.dialTransactions
            && Answers(w.swarm.answers, tid) == 0
  {
    var tid := w.swarm.nextTid + 1;
    assert Answers(w.swarm.answers, tid) + One(tid in w.swarm.dialTransactions) == 0;
    assert Endings(w.queue, tid) + One(tid in w.dialing) == 0;
  }

  lemma DialKeeps(w: World, peer: PeerId)
    requires Inv(w) && Enabled(w, Dial(peer))
    ensures Inv(Take(w, Dial(peer)))
  {
    hide IndexesAgree, Answers, StatsAgree, Closings, Endings;
    NextTransaction(w);
    SameIndexes(w.swarm, OnDial(w.swarm));
    var t := Take(w, Dial(peer));
    DialKeepsPeers(w, peer);
    hide PeersMatch;
    assert EndingsMatch(t) && AnswersMatch(t);
  }

  lemma DialKeepsPeers(w: World, peer: PeerId)
    requires Inv(w) && Enabled(w, Dial(peer))
    ensures PeersMatch(Take(w, Dial(peer)))
  {
    hide IndexesAgree, Answers, StatsAgree, Closings, Endings, ClosingsMatch, EndingsMatch, AnswersMatch;
    var t := Take(w, Dial(peer));
    assert forall tid: TransactionId, p :: PeerAsked(w, tid, p) ==> PeerAsked(t, tid, p);
  }

  lemma DialEndsKeeps(w: World, tid: TransactionId, rounds: seq<Dialer.Verdict>, attempts: nat)
    requires Inv(w) && Enabled(w, DialEnds(tid, rounds, attempts))
    ensures Inv(Take(w, DialEnds(tid, rounds, attempts)))
  {
    DialNamesPeer(rounds, attempts, w.dialing[tid]);
    hide RoundsOf;
    var e := DialEvent(tid, Dialer.DialVerdict(rounds, attempts));
    assert e.ConnectionEstablished? ==> PeerAsked(w, tid, e.peer);
    QueuedKeeps(w, Take(w, DialEnds(tid, rounds, attempts)), e);
  }

  lemma HandleKeeps(w: World)
    requires Inv(w) && Enabled(w, HandleEvent)
    ensures Inv(Take(w, HandleEvent))
  {
    match w.queue[0]
    case ConnectionEstablished(peer, direction, tid) => OpenedKeeps(w, peer, direction, tid);
    case ConnectionClosed(cid) => ClosedKeeps(w, cid);
    case OutgoingConnectionError(tid, error) => DialErrorKeeps(w, tid, error);
    case StreamOpened(cid, sid) => StreamOpenedKeeps(w, cid, sid);
  }

  lemma StepKeeps(w: World, step: Step)
    requires Inv(w) && Enabled(w, step)
    ensures Inv(Take(w, step))
  {
    match step
    case Dial(peer) => DialKeeps(w, peer);
    case DialEnds(tid, rounds, attempts) => DialEndsKeeps(w, tid, rounds, attempts);
    case Accept(peer) => QueuedKeeps(w, Take(w, step), ConnectionEstablished(peer, Inbound, None));
    case ConnectionEnds(cid) => QueuedKeeps(w, Take(w, step), ConnectionClosed(cid));
    case StreamOpens(cid, sid) => QueuedKeeps(w, Take(w, step), StreamOpened(cid, sid));
    case StreamCloses(cid, sid) => StreamClosedKeeps(w, cid, sid);
    case HandleEvent => HandleKeeps(w);
  }

  ghost predicate Executable(w: World, steps: seq<Step>)
    decreases |steps|
  {
    steps == [] || (Enabled(w, steps[0]) && Executable(Take(w, steps[0]), steps[1..]))
  }

  function Final(w: World, steps: seq<Step>): World
    requires Executable(w, steps)
    decreases |steps|
  {
    if steps == [] then w else Final(Take(w, steps[0]), steps[1..])
  }

  lemma {:induction false} RunKeeps(w: World, steps: seq<Step>)
    requires Inv(w) && Executable(w, steps)
    ensures Inv(Final(w, steps))
    decreases |steps|
  {
    if steps != [] {
      StepKeeps(w, steps[0]);
      RunKeeps(Take(w, steps[0]), steps[1..]);
    }
  }

  lemma InitHolds(localPeer: PeerId)
    ensures Inv(Init(localPeer))
  {
  }

  /** In every run the indexes agree, the counters match them, and neither "shouldn't happen" branch is visited. */
  lemma IndexesAlwaysAgree(localPeer: PeerId, steps: seq<Step>)
    requires Executable(Init(localPeer), steps)
    ensures var s := Final(Init(localPeer), steps).swarm; IndexesAgree(s) && StatsAgree(s) && s.warnings == 0
  {
    InitHolds(localPeer);
    RunKeeps(Init(localPeer), steps);
  }

  /** In every run a closing event is for a connection that is known, under a peer that is listed. */
  lemma ClosedIsKnown(localPeer: PeerId, steps: seq<Step>, cid: ConnectionId)
    requires Executable(Init(localPeer), steps)
    requires var w := Final(Init(localPeer), steps); w.queue != [] && w.queue[0] == ConnectionClosed(cid)
    ensures var s := Final(Init(localPeer), steps).swarm;
            && cid in s.connectionsById && s.connectionsById[cid].peer in s.connectionsByPeer
            && OnClosed(s, cid).warnings == 0
  {
    InitHolds(localPeer);
    RunKeeps(Init(localPeer), steps);
    hide Executable, Final, EndingsMatch, AnswersMatch, PeersMatch, StatsAgree;
    var w := Final(Init(localPeer), steps);
    assert Closings(w.queue, cid) > 0;
    assert cid in w.swarm.connectionsById;
    assert AgreeOn(w.swarm, w.swarm.connectionsById[cid].peer, cid);
  }

  /**
   * In every run no `expect` fails, every transaction is answered at most once, exactly once when its dial has ended
   * and the event is handled, and a success carries a connection to the peer that was asked for.
   */
  lemma EveryDialIsAnsweredOnce(localPeer: PeerId, steps: seq<Step>, tid: TransactionId)
    requires Executable(Init(localPeer), steps)
    requires 0 < tid <= Final(Init(localPeer), steps).swarm.nextTid
    ensures var w := Final(Init(localPeer), steps);
            && !w.panicked && tid in w.asked
            && Answers(w.swarm.answers, tid) == (if tid in w.dialing || Endings(w.queue, tid) > 0 then 0 else 1)
            && (forall a :: a in w.swarm.answers && a.0 == tid && a.1.Ok? ==> a.1.value.peer == w.asked[tid])
  {
    hide Executable, Final, Inv, Endings, Answers;
    InitHolds(localPeer);
    RunKeeps(Init(localPeer), steps);
    AnsweredOnce(Final(Init(localPeer), steps), tid);
  }

  lemma AnsweredOnce(w: World, tid: TransactionId)
    requires Inv(w) && 0 < tid <= w.swarm.nextTid
    ensures !w.panicked && tid in w.asked
    ensures Answers(w.swarm.answers, tid) == if tid in w.dialing || Endings(w.queue, tid) > 0 then 0 else 1
    ensures forall a :: a in w.swarm.answers && a.0 == tid && a.1.Ok? ==> a.1.value.peer == w.asked[tid]
  {
    hide IndexesAgree, StatsAgree, Endings, Answers, ClosingsMatch;
  }

  /**
   * In every run, whatever `get_best_conn` returns: nothing if and only if the swarm has no connection to the peer,
   * and otherwise a connection to that peer which no other connection to it beats in substreams.
   */
  lemma BestConnectionInEveryRun(localPeer: PeerId, steps: seq<Step>, p: PeerId, best: Option<ConnectionId>)
    requires Executable(Init(localPeer), steps)
    requires PicksBest(Final(Init(localPeer), steps).swarm, p, best)
    ensures var s := Final(Init(localPeer), steps).swarm;
            && (best.None? <==> !exists cid :: LeadsTo(s, cid, p))
            && (best.Some? ==>
                  && LeadsTo(s, best.value, p)
                  && forall cid :: LeadsTo(s, cid, p) ==> NumStreams(s, cid) <= NumStreams(s, best.value))
  {
    IndexesAlwaysAgree(localPeer, steps);
    hide Executable, Final;
    var s := Final(Init(localPeer), steps).swarm;
    if best.None? {
      ListedIffConnected(s, p);
    } else {
      var i: nat :| IsBest(s, Conns(s, p), i) && Conns(s, p)[i] == best.value;
      forall cid
        ensures LeadsTo(s, best.value, p)
        ensures LeadsTo(s, cid, p) ==> NumStreams(s, cid) <= NumStreams(s, best.value)
      {
        BestHasMostStreams(s, p, i, cid);
      }
    }
  }
}
