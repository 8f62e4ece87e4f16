/** The part of the swarm that owns connections and pending dials, and how it reacts to events and commands. */
module Swarm {
  import opened Bytes
  import Dialer

  type PeerId = Dialer.PeerId
  type ConnectionId = nat
  type TransactionId = nat
  type StreamId = nat

  datatype Direction = Inbound | Outbound

  datatype Connection = Connection(peer: PeerId, direction: Direction, substreams: seq<StreamId>)

  datatype SwarmError = DialToSelf | NoAddresses | DialFailed(error: Dialer.DialError)

  datatype Handle = Handle(cid: ConnectionId, peer: PeerId)

  /** What a dial callback is called with. */
  type Answer = Result<Handle, SwarmError>

  datatype Stats = Stats(incomingOpened: nat, outgoingOpened: nat, closed: nat, outgoingErrors: nat)

  datatype Event =
    | ConnectionEstablished(peer: PeerId, direction: Direction, tid: Option<TransactionId>)
    | ConnectionClosed(cid: ConnectionId)
    | OutgoingConnectionError(dial: TransactionId, error: SwarmError)
    | StreamOpened(cid: ConnectionId, sid: StreamId)

  /**
   * The fields of the swarm; `answers` is the list of callbacks run so far, and `warnings` counts the visits to the
   * two branches that log "shouldn't happen".
   */
  datatype State = State(
    localPeer: PeerId, nextConnectionId: nat, nextTid: nat,
    connectionsById: map<ConnectionId, Connection>, connectionsByPeer: map<PeerId, seq<ConnectionId>>,
    dialTransactions: set<TransactionId>, answers: seq<(TransactionId, Answer)>, stats: Stats, warnings: nat)

  function New(localPeer: PeerId): State {
    State(localPeer, 0, 0, map[], map[], {}, [], Stats(0, 0, 0, 0), 0)
  }

  function Conns(s: State, p: PeerId): seq<ConnectionId> {
    if p in s.connectionsByPeer then s.connectionsByPeer[p] else []
  }

  function AddConnection(s: State, cid: ConnectionId, c: Connection): State {
    s.(connectionsById := s.connectionsById[cid := c],
       connectionsByPeer := s.connectionsByPeer[c.peer := Conns(s, c.peer) + [cid]])
  }

  /** `handle_connection_opened`; `None` stands for the panic of its `expect`. */
  function OnOpened(s: State, peer: PeerId, direction: Direction, tid: Option<TransactionId>): Option<State> {
    var cid := s.nextConnectionId + 1;
    var counted := s.(nextConnectionId := cid,
                      stats := if direction.Inbound? then s.stats.(incomingOpened := s.stats.incomingOpened + 1)
                               else s.stats.(outgoingOpened := s.stats.outgoingOpened + 1));
    if tid.Some? && tid.value !in s.dialTransactions then None
    else
      var answered := if tid.None? then counted
                      else counted.(dialTransactions := s.dialTransactions - {tid.value},
                                    answers := s.answers + [(tid.value, Ok(Handle(cid, peer)))]);
      Some(AddConnection(answered, cid, Connection(peer, direction, [])))
  }

  function Without(ids: seq<ConnectionId>, cid: ConnectionId): (r: seq<ConnectionId>)
    ensures forall x :: x in r <==> x in ids && x != cid
    ensures cid !in ids ==> r == ids
  {
    if ids == [] then []
    else
      var n := |ids| - 1;
      Without(ids[..n], cid) + (if ids[n] == cid then [] else [ids[n]])
  }

  /** `handle_connection_closed`. */
  function OnClosed(s: State, cid: ConnectionId): State {
    var counted := s.(stats := s.stats.(closed := s.stats.closed + 1));
    if cid !in s.connectionsById then counted.(warnings := s.warnings + 1)
    else
      var peer := s.connectionsById[cid].peer;
      var removed := counted.(connectionsById := s.connectionsById - {cid});
      if peer !in s.connectionsByPeer then removed.(warnings := s.warnings + 1)
      else
        var ids := Without(s.connectionsByPeer[peer], cid);
        removed.(connectionsByPeer := if ids == [] then s.connectionsByPeer - {peer}
                                       else s.connectionsByPeer[peer := ids])
  }

  /** `handle_outgoing_connection_error`. */
  function OnDialError(s: State, tid: TransactionId, error: SwarmError): Option<State> {
    if tid !in s.dialTransactions then None
    else Some(s.(dialTransactions := s.dialTransactions - {tid}, answers := s.answers + [(tid, Err(error))],
                 stats := s.stats.(outgoingErrors := s.stats.outgoingErrors + 1)))
  }

  function OnStreamOpened(s: State, cid: ConnectionId, sid: StreamId): State {
    if cid !in s.connectionsById then s
    else
      var c := s.connectionsById[cid];
      s.(connectionsById := s.connectionsById[cid := c.(substreams := c.substreams + [sid])])
  }

  function OnStreamClosed(s: State, cid: ConnectionId, sid: StreamId): State {
    if cid !in s.connectionsById then s
    else
      var c := s.connectionsById[cid];
      s.(connectionsById := s.connectionsById[cid := c.(substreams := Without(c.substreams, sid))])
  }

  function OnEvent(s: State, e: Event): Option<State> {
    match e
    case ConnectionEstablished(peer, direction, tid) => OnOpened(s, peer, direction, tid)
    case ConnectionClosed(cid) => Some(OnClosed(s, cid))
    case OutgoingConnectionError(tid, error) => OnDialError(s, tid, error)
    case StreamOpened(cid, sid) => Some(OnStreamOpened(s, cid, sid))
  }

  /** A dial that reaches the dialer: it gets the next transaction id, under which its callback is kept. */
  function OnDial(s: State): State {
    s.(nextTid := s.nextTid + 1, dialTransactions := s.dialTransactions + {s.nextTid + 1})
  }

  // The two indexes

  predicate LeadsTo(s: State, cid: ConnectionId, p: PeerId) {
    cid in s.connectionsById && s.connectionsById[cid].peer == p
  }

  ghost predicate Distinct<T>(ids: seq<T>) {
    forall i, j :: 0 <= i < j < |ids| ==> ids[i] != ids[j]
  }

  /** The two indexes agree about one connection and one peer. */
  predicate AgreeOn(s: State, p: PeerId, cid: ConnectionId) {
    cid in Conns(s, p) <==> LeadsTo(s, cid, p)
  }

  /** Both indexes hold the same connections: each under its own peer, once, and no peer without one. */
  ghost predicate IndexesAgree(s: State) {
    && (forall p, cid :: AgreeOn(s, p, cid))
    && (forall p :: Distinct(Conns(s, p)))
    && (forall p :: p in s.connectionsByPeer ==> Conns(s, p) != [])
    && (forall cid :: cid in s.connectionsById ==> 0 < cid <= s.nextConnectionId)
  }

  /** A closing event is warned of exactly when its connection is unknown or that connection's peer is not listed. */
  lemma WarnsOfTheUnknown(s: State, cid: ConnectionId)
    ensures var known := cid in s.connectionsById && s.connectionsById[cid].peer in s.connectionsByPeer;
            OnClosed(s, cid).warnings == s.warnings + (if known then 0 else 1)
  {
    hide Without;
  }

  /** Opened minus closed is the size of the index. */
  ghost predicate StatsAgree(s: State) {
    s.stats.incomingOpened + s.stats.outgoingOpened == s.stats.closed + |s.connectionsById|
  }

  lemma Appended(ids: seq<ConnectionId>, cid: ConnectionId)
    requires Distinct(ids) && cid !in ids
    ensures Distinct(ids + [cid])
  {
  }

  lemma AddedConns(s: State, t: State, cid: ConnectionId, c: Connection, p: PeerId)
    requires t.connectionsByPeer == s.connectionsByPeer[c.peer := Conns(s, c.peer) + [cid]]
    ensures Conns(t, p) == if p == c.peer then Conns(s, p) + [cid] else Conns(s, p)
    ensures p in t.connectionsByPeer <==> p in s.connectionsByPeer || p == c.peer
  {
  }

  lemma AddAgrees(s: State, t: State, cid: ConnectionId, c: Connection)
    requires IndexesAgree(s) && cid == s.nextConnectionId + 1 == t.nextConnectionId
    requires t.connectionsById == s.connectionsById[cid := c]
    requires t.connectionsByPeer == s.connectionsByPeer[c.peer := Conns(s, c.peer) + [cid]]
    ensures IndexesAgree(t) && |t.connectionsById| == |s.connectionsById| + 1
  {
    hide Conns, Distinct;
    assert AgreeOn(s, c.peer, cid);
    Appended(Conns(s, c.peer), cid);
    forall p ensures Distinct(Conns(t, p)) && (p in t.connectionsByPeer ==> Conns(t, p) != []) {
      AddedConns(s, t, cid, c, p);
    }
    forall p, x ensures AgreeOn(t, p, x) {
      AddedConns(s, t, cid, c, p);
      assert AgreeOn(s, p, x);
    }
  }

  lemma OpenedKeepsIndexes(s: State, peer: PeerId, direction: Direction, tid: Option<TransactionId>)
    requires IndexesAgree(s) && StatsAgree(s) && OnOpened(s, peer, direction, tid).Some?
    ensures var t := OnOpened(s, peer, direction, tid).value; IndexesAgree(t) && StatsAgree(t)
  {
    hide IndexesAgree;
    AddAgrees(s, OnOpened(s, peer, direction, tid).value, s.nextConnectionId + 1, Connection(peer, direction, []));
  }

  lemma {:induction false} WithoutDistinct(ids: seq<ConnectionId>, cid: ConnectionId)
    requires Distinct(ids)
    ensures Distinct(Without(ids, cid))
  {
    if ids != [] {
      var n := |ids| - 1;
      WithoutDistinct(ids[..n], cid);
      if ids[n] == cid {
        assert Without(ids, cid) == Without(ids[..n], cid);
      } else {
        assert ids[n] !in ids[..n];
        Appended(Without(ids[..n], cid), ids[n]);
      }
    }
  }

  lemma ClosedConns(s: State, cid: ConnectionId, p: PeerId)
    requires IndexesAgree(s) && cid in s.connectionsById
    ensures Conns(OnClosed(s, cid), p) ==
                if p == s.connectionsById[cid].peer then Without(Conns(s, p), cid) else Conns(s, p)
    ensures p in OnClosed(s, cid).connectionsByPeer ==> Conns(OnClosed(s, cid), p) != []
    ensures OnClosed(s, cid).warnings == s.warnings
  {
    assert AgreeOn(s, s.connectionsById[cid].peer, cid);
  }

  lemma RemoveSize(m: map<ConnectionId, Connection>, cid: ConnectionId)
    requires cid in m
    ensures |m| == |m - {cid}| + 1
  {
    assert m.Keys == (m - {cid}).Keys + {cid};
  }

  lemma RemoveAgrees(s: State, t: State, cid: ConnectionId, peer: PeerId)
    requires IndexesAgree(s) && cid in s.connectionsById && peer == s.connectionsById[cid].peer
    requires t.connectionsById == s.connectionsById - {cid} && t.nextConnectionId == s.nextConnectionId
    requires forall p :: Conns(t, p) == if p == peer then Without(Conns(s, p), cid) else Conns(s, p)
    requires forall p :: p in t.connectionsByPeer ==> Conns(t, p) != []
    ensures IndexesAgree(t) && |s.connectionsById| == |t.connectionsById| + 1
  {
    hide Conns, Distinct, Without;
    WithoutDistinct(Conns(s, peer), cid);
    RemoveSize(s.connectionsById, cid);
    forall p, x ensures AgreeOn(t, p, x) {
      assert AgreeOn(s, p, x);
    }
  }

  lemma ClosedKeepsIndexes(s: State, cid: ConnectionId)
    requires IndexesAgree(s) && StatsAgree(s) && cid in s.connectionsById
    ensures IndexesAgree(OnClosed(s, cid)) && StatsAgree(OnClosed(s, cid)) && OnClosed(s, cid).warnings == s.warnings
  {
    var t, peer := OnClosed(s, cid), s.connectionsById[cid].peer;
    forall p
      ensures Conns(t, p) == if p == peer then Without(Conns(s, p), cid) else Conns(s, p)
      ensures p in t.connectionsByPeer ==> Conns(t, p) != []
    {
      ClosedConns(s, cid, p);
    }
    ClosedConns(s, cid, peer);
    hide Conns, Without, IndexesAgree;
    RemoveAgrees(s, t, cid, peer);
  }

  // Choosing a connection

  function NumStreams(s: State, cid: ConnectionId): nat {
    if cid in s.connectionsById then |s.connectionsById[cid].substreams| else 0
  }

  /** Of the known connections among `ids`, the one at `i` has the most substreams and is the last that has as many. */
  ghost predicate IsBest(s: State, ids: seq<ConnectionId>, i: nat) {
    && i < |ids| && ids[i] in s.connectionsById
    && forall j :: 0 <= j < |ids| && ids[j] in s.connectionsById ==>
         if j <= i then NumStreams(s, ids[j]) <= NumStreams(s, ids[i])
         else NumStreams(s, ids[j]) < NumStreams(s, ids[i])
  }

  /** What `get_best_conn` may return: nothing when no listed connection is known, or the best of the listed ones. */
  ghost predicate PicksBest(s: State, p: PeerId, best: Option<ConnectionId>) {
    match best
    case None => forall cid :: cid in Conns(s, p) ==> cid !in s.connectionsById
    case Some(cid) => exists i: nat :: IsBest(s, Conns(s, p), i) && Conns(s, p)[i] == cid
  }

  class Swarm {
    const localPeer: PeerId
    var nextConnectionId: nat
    var nextTid: nat
    var connectionsById: map<ConnectionId, Connection>
    var connectionsByPeer: map<PeerId, seq<ConnectionId>>
    var dialTransactions: set<TransactionId>
    var answers: seq<(TransactionId, Answer)>
    var stats: Stats
    var warnings: nat

    function View(): State
      reads this
    {
      State(localPeer, nextConnectionId, nextTid, connectionsById, connectionsByPeer,
            dialTransactions, answers, stats, warnings)
    }

    constructor (localPeer: PeerId)
      ensures View() == New(localPeer)
    {
      this.localPeer := localPeer;
      nextConnectionId, nextTid, connectionsById, connectionsByPeer := 0, 0, map[], map[];
      dialTransactions, answers, stats, warnings := {}, [], Stats(0, 0, 0, 0), 0;
    }

    method RunCallback(tid: TransactionId, answer: Answer)
      requires tid in dialTransactions
      modifies this`dialTransactions, this`answers
      ensures dialTransactions == old(dialTransactions) - {tid} && answers == old(answers) + [(tid, answer)]
    {
      dialTransactions := dialTransactions - {tid};
      answers := answers + [(tid, answer)];
    }

    method AddToIndexes(cid: ConnectionId, c: Connection)
      modifies this`connectionsById, this`connectionsByPeer
      ensures View() == AddConnection(old(View()), cid, c)
    {
      connectionsById := connectionsById[cid := c];
      var conns := if c.peer in connectionsByPeer then connectionsByPeer[c.peer] else [];
      connectionsByPeer := connectionsByPeer[c.peer := conns + [cid]];
    }

    method HandleConnectionOpened(peer: PeerId, direction: Direction, tid: Option<TransactionId>)
      requires tid.Some? ==> tid.value in dialTransactions
      modifies this
      ensures Some(View()) == OnOpened(old(View()), peer, direction, tid)
    {
      if direction == Inbound {
        stats := stats.(incomingOpened := stats.incomingOpened + 1);
      } else {
        stats := stats.(outgoingOpened := stats.outgoingOpened + 1);
      }
      nextConnectionId := nextConnectionId + 1;
      var cid := nextConnectionId;
      if tid.Some? { RunCallback(tid.value, Ok(Handle(cid, peer))); }
      AddToIndexes(cid, Connection(peer, direction, []));
    }

    method HandleConnectionClosed(cid: ConnectionId)
      modifies this
      ensures View() == OnClosed(old(View()), cid)
    {
      stats := stats.(closed := stats.closed + 1);
      if cid in connectionsById {
        var connection := connectionsById[cid];
        connectionsById := connectionsById - {cid};
        if connection.peer in connectionsByPeer {
          var ids := Without(connectionsByPeer[connection.peer], cid);
          connectionsByPeer := connectionsByPeer[connection.peer := ids];
          if ids == [] {
            connectionsByPeer := connectionsByPeer - {connection.peer};
            assert connectionsByPeer == old(connectionsByPeer) - {connection.peer};
          }
        } else {
          warnings := warnings + 1;
        }
      } else {
        warnings := warnings + 1;
      }
    }

    method HandleOutgoingConnectionError(tid: TransactionId, error: SwarmError)
      requires tid in dialTransactions
      modifies this
      ensures Some(View()) == OnDialError(old(View()), tid, error)
    {
      stats := stats.(outgoingErrors := stats.outgoingErrors + 1);
      RunCallback(tid, Err(error));
    }

    /** `dial_addr`: a dial to the local peer is answered at once, any other gets a transaction. */
    method DialAddr(peer: PeerId) returns (answer: Option<Answer>)
      modifies this
      ensures if peer == localPeer then answer == Some(Err(DialToSelf)) && View() == old(View())
              else answer == None && View() == OnDial(old(View()))
    {
      if localPeer == peer { return Some(Err(DialToSelf)); }
      nextTid := nextTid + 1;
      dialTransactions := dialTransactions + {nextTid};
      answer := None;
    }

    /** `dial_peer`: without a known address, and without routing, the callback is told so at once. */
    method DialPeer(peer: PeerId, known: nat, useRouting: bool, hasRouting: bool) returns (answer: Option<Answer>)
      modifies this
      ensures if peer == localPeer then answer == Some(Err(DialToSelf)) && View() == old(View())
              else if known == 0 && !(useRouting && hasRouting) then
                     answer == Some(Err(NoAddresses)) && View() == old(View())
              else answer == None && View() == OnDial(old(View()))
    {
      if localPeer == peer { return Some(Err(DialToSelf)); }
      if known == 0 && !(useRouting && hasRouting) { return Some(Err(NoAddresses)); }
      nextTid := nextTid + 1;
      dialTransactions := dialTransactions + {nextTid};
      answer := None;
    }

    /** `get_best_conn`. */
    method GetBestConn(peer: PeerId) returns (best: Option<ConnectionId>)
      ensures PicksBest(View(), peer, best)
    {
      best := None;
      if peer in connectionsByPeer {
        var ids := connectionsByPeer[peer];
        var len := 0;
        ghost var at := 0;
        for k := 0 to |ids|
          invariant best.None? ==> len == 0 && forall j :: 0 <= j < k ==> ids[j] !in connectionsById
          invariant best.Some? ==> at < k && ids[at] == best.value
                                   && IsBest(View(), ids[..k], at) && len == NumStreams(View(), ids[at])
        {
          if ids[k] in connectionsById {
            var num := |connectionsById[ids[k]].substreams|;
            if num >= len {
              len := num;
              best := Some(ids[k]);
              at := k;
            }
          }
        }
        assert ids[..|ids|] == ids == Conns(View(), peer);
        assert best.Some? ==> IsBest(View(), Conns(View(), peer), at);
      }
    }
  }

  /** With agreeing indexes a peer has a listed connection exactly when it has one at all. */
  lemma ListedIffConnected(s: State, p: PeerId)
    requires IndexesAgree(s)
    ensures (exists cid :: LeadsTo(s, cid, p)) <==> (exists cid :: cid in Conns(s, p) && cid in s.connectionsById)
  {
    if cid :| LeadsTo(s, cid, p) {
      assert AgreeOn(s, p, cid);
    }
    if cid :| cid in Conns(s, p) && cid in s.connectionsById {
      assert AgreeOn(s, p, cid);
    }
  }

  /**
   * With agreeing indexes the best connection leads to the peer, and no connection to that peer has more
   * substreams.
   */
  lemma BestHasMostStreams(s: State, p: PeerId, i: nat, cid: ConnectionId)
    requires IndexesAgree(s) && IsBest(s, Conns(s, p), i)
    ensures s.connectionsById[Conns(s, p)[i]].peer == p
    ensures LeadsTo(s, cid, p) ==> NumStreams(s, cid) <= NumStreams(s, Conns(s, p)[i])
  {
    assert AgreeOn(s, p, Conns(s, p)[i]) && AgreeOn(s, p, cid);
  }
}
