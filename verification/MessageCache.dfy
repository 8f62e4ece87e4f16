/** The gossipsub message cache: a map of messages and a sliding window of the ids put in each heartbeat. */
module MessageCache {
  import opened Bytes

  type MessageId = string
  type Topic = string
  type PeerId = string

  datatype RawMessage = RawMessage(data: string, topic: Topic, validated: bool)

  datatype Entry = Entry(mid: MessageId, topic: Topic)

  type Counts = map<MessageId, map<PeerId, nat>>

  datatype State = State(msgs: map<MessageId, RawMessage>, iwant: Counts, history: seq<seq<Entry>>, gossip: nat)

  // What each call does

  function New(gossip: nat, capacity: nat): State {
    State(map[], map[], seq(capacity, _ => []), gossip)
  }

  function Put(s: State, mid: MessageId, msg: RawMessage): State
    requires s.history != []
  {
    var t := s.(msgs := s.msgs[mid := msg]);
    if mid in s.msgs then t else t.(history := s.history[0 := s.history[0] + [Entry(mid, msg.topic)]])
  }

  predicate Validated(msgs: map<MessageId, RawMessage>, mid: MessageId) {
    mid in msgs && msgs[mid].validated
  }

  function Asked(iwant: Counts, mid: MessageId, peer: PeerId): nat {
    if mid in iwant && peer in iwant[mid] then iwant[mid][peer] else 0
  }

  function Get(s: State, mid: MessageId, peer: PeerId): State {
    if !Validated(s.msgs, mid) then s
    else
      var counts := if mid in s.iwant then s.iwant[mid] else map[];
      s.(iwant := s.iwant[mid := counts[peer := Asked(s.iwant, mid, peer) + 1]])
  }

  function Validate(s: State, mid: MessageId): State {
    if mid in s.msgs then s.(msgs := s.msgs[mid := s.msgs[mid].(validated := true)]) else s
  }

  function Mids(entries: seq<Entry>): set<MessageId> {
    set e | e in entries :: e.mid
  }

  function Shift(s: State): State
    requires s.history != []
  {
    var n := |s.history| - 1;
    var gone := Mids(s.history[n]);
    s.(msgs := s.msgs - gone, iwant := s.iwant - gone, history := [[]] + s.history[..n])
  }

  function Remove(s: State, mid: MessageId): State {
    s.(msgs := s.msgs - {mid}, iwant := s.iwant - {mid})
  }

  function Found(msgs: map<MessageId, RawMessage>, entries: seq<Entry>, topic: Topic): seq<MessageId> {
    if entries == [] then []
    else
      var e := entries[|entries| - 1];
      Found(msgs, entries[..|entries| - 1], topic)
      + (if e.topic == topic && Validated(msgs, e.mid) then [e.mid] else [])
  }

  function FoundIn(msgs: map<MessageId, RawMessage>, slots: seq<seq<Entry>>, topic: Topic): seq<MessageId> {
    if slots == [] then [] else Found(msgs, slots[0], topic) + FoundIn(msgs, slots[1..], topic)
  }

  function GossipIds(s: State, topic: Topic): seq<MessageId>
    requires s.gossip <= |s.history|
  {
    FoundIn(s.msgs, s.history[..s.gossip], topic)
  }

  class MessageCache {
    var msgs: map<MessageId, RawMessage>
    var iwant: Counts
    var history: seq<seq<Entry>>
    const gossip: nat

    ghost function View(): State
      reads this
    {
      State(msgs, iwant, history, gossip)
    }

    constructor (gossip: nat, capacity: nat)
      ensures View() == New(gossip, capacity)
    {
      this.gossip, msgs, iwant, history := gossip, map[], map[], seq(capacity, _ => []);
    }

    method PutMessage(mid: MessageId, msg: RawMessage) returns (seen: Option<RawMessage>)
      requires history != []
      modifies this
      ensures View() == Put(old(View()), mid, msg)
      ensures seen == if mid in old(msgs) then Some(old(msgs)[mid]) else None
    {
      var entry := Entry(mid, msg.topic);
      seen := if mid in msgs then Some(msgs[mid]) else None;
      msgs := msgs[mid := msg];
      if seen == None {
        history := history[0 := history[0] + [entry]];
      }
    }

    method GetWithIwantCounts(mid: MessageId, peer: PeerId) returns (r: Option<(RawMessage, nat)>)
      modifies this
      ensures View() == Get(old(View()), mid, peer)
      ensures r == if Validated(old(msgs), mid) then Some((old(msgs)[mid], Asked(iwant, mid, peer))) else None
      ensures r.Some? ==> r.value.1 == Asked(old(iwant), mid, peer) + 1
    {
      if mid !in msgs { return None; }
      if !msgs[mid].validated { return None; }
      if mid !in iwant { iwant := iwant[mid := map[]]; }
      var counts := iwant[mid];
      ghost var was := counts;
      if peer !in counts { counts := counts[peer := 0]; }
      counts := counts[peer := counts[peer] + 1];
      assert counts == was[peer := Asked(old(iwant), mid, peer) + 1];
      iwant := iwant[mid := counts];
      assert iwant == old(iwant)[mid := counts];
      return Some((msgs[mid], counts[peer]));
    }

    method ValidateMessage(mid: MessageId) returns (r: Option<RawMessage>)
      modifies this
      ensures View() == Validate(old(View()), mid)
      ensures r == if mid in msgs then Some(msgs[mid]) else None
    {
      if mid !in msgs { return None; }
      msgs := msgs[mid := msgs[mid].(validated := true)];
      return Some(msgs[mid]);
    }

    method ShiftHistory()
      requires history != []
      modifies this
      ensures View() == Shift(old(View()))
    {
      var n := |history| - 1;
      var popped := history[n];
      history := history[..n];
      for i := 0 to |popped|
        invariant msgs == old(msgs) - Mids(popped[..i]) && iwant == old(iwant) - Mids(popped[..i])
        invariant history == old(history)[..n]
      {
        assert popped[..i + 1] == popped[..i] + [popped[i]];
        assert Mids(popped[..i + 1]) == Mids(popped[..i]) + {popped[i].mid};
        if popped[i].mid in msgs {
          msgs := msgs - {popped[i].mid};
        }
        iwant := iwant - {popped[i].mid};
      }
      assert popped[..|popped|] == popped;
      history := [[]] + history;
    }

    method RemoveMessage(mid: MessageId) returns (r: Option<RawMessage>)
      modifies this
      ensures View() == Remove(old(View()), mid)
      ensures r == if mid in old(msgs) then Some(old(msgs)[mid]) else None
    {
      iwant := iwant - {mid};
      r := if mid in msgs then Some(msgs[mid]) else None;
      msgs := msgs - {mid};
    }
  }

  // How often an id, or an entry, is in the window

  function CountMid(entries: seq<Entry>, mid: MessageId): nat {
    if entries == [] then 0
    else CountMid(entries[..|entries| - 1], mid) + (if entries[|entries| - 1].mid == mid then 1 else 0)
  }

  function CountEntry(entries: seq<Entry>, e: Entry): nat {
    if entries == [] then 0
    else CountEntry(entries[..|entries| - 1], e) + (if entries[|entries| - 1] == e then 1 else 0)
  }

  function Mentions(slots: seq<seq<Entry>>, mid: MessageId): nat {
    if slots == [] then 0 else CountMid(slots[0], mid) + Mentions(slots[1..], mid)
  }

  function Occurs(slots: seq<seq<Entry>>, e: Entry): nat {
    if slots == [] then 0 else CountEntry(slots[0], e) + Occurs(slots[1..], e)
  }

  lemma {:induction false} CountMember(entries: seq<Entry>, mid: MessageId)
    ensures CountMid(entries, mid) > 0 <==> mid in Mids(entries)
  {
    if entries != [] {
      var n := |entries| - 1;
      CountMember(entries[..n], mid);
      assert entries == entries[..n] + [entries[n]];
      assert Mids(entries) == Mids(entries[..n]) + {entries[n].mid};
    }
  }

  lemma CountPush(entries: seq<Entry>, e: Entry, mid: MessageId)
    ensures CountMid(entries + [e], mid) == CountMid(entries, mid) + (if e.mid == mid then 1 else 0)
    ensures forall f :: CountEntry(entries + [e], f) == CountEntry(entries, f) + (if e == f then 1 else 0)
  {
    assert (entries + [e])[..|entries|] == entries;
  }

  lemma {:induction false} MentionsAppend(a: seq<seq<Entry>>, b: seq<seq<Entry>>, mid: MessageId)
    ensures Mentions(a + b, mid) == Mentions(a, mid) + Mentions(b, mid)
  {
    if a == [] {
      assert a + b == b;
    } else {
      MentionsAppend(a[1..], b, mid);
      assert (a + b)[1..] == a[1..] + b;
    }
  }

  lemma {:induction false} NoMention(slots: seq<seq<Entry>>, mid: MessageId)
    requires forall i :: 0 <= i < |slots| ==> CountMid(slots[i], mid) == 0
    ensures Mentions(slots, mid) == 0
  {
    if slots != [] { NoMention(slots[1..], mid); }
  }

  lemma {:induction false} Mentioned(slots: seq<seq<Entry>>, mid: MessageId, k: nat)
    requires k < |slots|
    ensures Mentions(slots, mid) >= CountMid(slots[k], mid)
  {
    if k > 0 { Mentioned(slots[1..], mid, k - 1); }
  }

  // Every run

  datatype Op =
    | PutOp(mid: MessageId, msg: RawMessage)
    | GetOp(mid: MessageId, peer: PeerId)
    | ValidateOp(mid: MessageId)
    | ShiftOp
    | RemoveOp(mid: MessageId)

  function Do(s: State, op: Op): (t: State)
    requires s.history != []
    ensures |t.history| == |s.history| && t.gossip == s.gossip
  {
    match op
    case PutOp(mid, msg) => Put(s, mid, msg)
    case GetOp(mid, peer) => Get(s, mid, peer)
    case ValidateOp(mid) => Validate(s, mid)
    case ShiftOp => Shift(s)
    case RemoveOp(mid) => Remove(s, mid)
  }

  function Run(s: State, ops: seq<Op>): (t: State)
    requires s.history != []
    ensures |t.history| == |s.history| && t.gossip == s.gossip
    decreases |ops|
  {
    if ops == [] then s else Run(Do(s, ops[0]), ops[1..])
  }

  function Shifts(ops: seq<Op>): nat {
    if ops == [] then 0 else (if ops[0].ShiftOp? then 1 else 0) + Shifts(ops[1..])
  }

  /** The oldest slot that mentions an id. */
  ghost predicate IsOldest(h: seq<seq<Entry>>, mid: MessageId, k: nat) {
    k < |h| && CountMid(h[k], mid) > 0 && forall i :: k < i < |h| ==> CountMid(h[i], mid) == 0
  }

  ghost predicate InWindow(h: seq<seq<Entry>>, mid: MessageId) {
    exists k :: 0 <= k < |h| && CountMid(h[k], mid) > 0
  }

  /** Every cached id is in the window, and only cached ids have counts. */
  ghost predicate Inv(s: State) {
    && s.history != [] && s.gossip <= |s.history|
    && (forall mid :: mid in s.msgs ==> InWindow(s.history, mid))
    && s.iwant.Keys <= s.msgs.Keys
  }

  lemma PutKeeps(s: State, mid: MessageId, msg: RawMessage)
    requires Inv(s)
    ensures Inv(Put(s, mid, msg))
  {
    hide CountMid;
    var t := Put(s, mid, msg);
    forall m | m in t.msgs ensures InWindow(t.history, m) {
      CountPush(s.history[0], Entry(mid, msg.topic), m);
      if m in s.msgs {
        var k :| 0 <= k < |s.history| && CountMid(s.history[k], m) > 0;
        assert CountMid(t.history[k], m) > 0;
      } else {
        assert CountMid(t.history[0], m) > 0;
      }
    }
  }

  lemma ShiftKeeps(s: State)
    requires Inv(s)
    ensures Inv(Shift(s))
  {
    hide CountMid;
    var t := Shift(s);
    var n := |s.history| - 1;
    forall m | m in t.msgs ensures InWindow(t.history, m) {
      var k :| 0 <= k < |s.history| && CountMid(s.history[k], m) > 0;
      CountMember(s.history[n], m);
      assert k < n;
      assert t.history[k + 1] == s.history[k];
      assert CountMid(t.history[k + 1], m) > 0;
    }
  }

  lemma StepKeeps(s: State, op: Op)
    requires Inv(s)
    ensures Inv(Do(s, op))
  {
    match op
    case PutOp(mid, msg) => PutKeeps(s, mid, msg);
    case ShiftOp => ShiftKeeps(s);
    case GetOp(mid, peer) =>
    case ValidateOp(mid) =>
    case RemoveOp(mid) =>
  }

  lemma {:induction false} RunKeeps(s: State, ops: seq<Op>)
    requires Inv(s)
    ensures Inv(Run(s, ops))
    decreases |ops|
  {
    hide Inv, Do;
    NotEmpty(s);
    if ops != [] {
      StepKeeps(s, ops[0]);
      RunKeeps(Do(s, ops[0]), ops[1..]);
    }
  }

  lemma NotEmpty(s: State)
    ensures Inv(s) ==> s.history != []
  {
  }

  lemma NewIsValid(gossip: nat, capacity: nat)
    requires gossip <= capacity && 0 < capacity
    ensures Inv(New(gossip, capacity))
  {
  }

  /** In every run of a new cache each cached id is in the window, and only cached ids have counts. */
  lemma EveryRunIsValid(gossip: nat, capacity: nat, ops: seq<Op>)
    requires gossip <= capacity && 0 < capacity
    ensures Inv(Run(New(gossip, capacity), ops))
  {
    NewIsValid(gossip, capacity);
    RunKeeps(New(gossip, capacity), ops);
  }

  /** The id is not put while it is absent from the cache. */
  predicate NotPutAnew(s: State, mid: MessageId, ops: seq<Op>)
    requires s.history != []
    decreases |ops|
  {
    ops != [] ==>
      && (ops[0].PutOp? && ops[0].mid == mid ==> mid in s.msgs)
      && NotPutAnew(Do(s, ops[0]), mid, ops[1..])
  }

  /** Nor is it removed. */
  predicate Undisturbed(s: State, mid: MessageId, ops: seq<Op>)
    requires s.history != []
  {
    RemoveOp(mid) !in ops && NotPutAnew(s, mid, ops)
  }

  lemma PutKeepsOldest(s: State, mid: MessageId, k: nat, m: MessageId, msg: RawMessage)
    requires s.history != [] && mid in s.msgs && IsOldest(s.history, mid, k)
    ensures IsOldest(Put(s, m, msg).history, mid, k)
  {
    CountPush(s.history[0], Entry(m, msg.topic), mid);
    hide CountMid;
  }

  /**
   * One call other than its removal: a cached id stays where it is, or a shift moves it one slot on, or out of
   * the last.
   */
  lemma StepAges(s: State, mid: MessageId, k: nat, op: Op)
    requires s.history != [] && mid in s.msgs && IsOldest(s.history, mid, k) && op != RemoveOp(mid)
    ensures var t := Do(s, op);
            var j := if op.ShiftOp? then k + 1 else k;
            if j < |s.history| then mid in t.msgs && IsOldest(t.history, mid, j) else mid !in t.msgs
  {
    hide CountMid;
    match op
    case PutOp(m, msg) => PutKeepsOldest(s, mid, k, m, msg);
    case ShiftOp =>
      var n := |s.history| - 1;
      CountMember(s.history[n], mid);
      if k < n {
        var h := Shift(s).history;
        assert h[k + 1] == s.history[k];
        forall i | k + 1 < i < |h| ensures CountMid(h[i], mid) == 0 {
          assert h[i] == s.history[i - 1];
        }
      }
    case GetOp(_, _) =>
    case ValidateOp(_) =>
    case RemoveOp(_) =>
  }

  lemma {:induction false} StaysGone(s: State, mid: MessageId, ops: seq<Op>)
    requires s.history != [] && mid !in s.msgs && NotPutAnew(s, mid, ops)
    ensures mid !in Run(s, ops).msgs
    decreases |ops|
  {
    if ops != [] { StaysGone(Do(s, ops[0]), mid, ops[1..]); }
  }

  /** Whatever else is called, a cached id is in the cache exactly until its oldest mention has been shifted out. */
  lemma {:induction false} CachedUntilOldestLeaves(s: State, mid: MessageId, k: nat, ops: seq<Op>)
    requires s.history != [] && mid in s.msgs && IsOldest(s.history, mid, k) && Undisturbed(s, mid, ops)
    ensures mid in Run(s, ops).msgs <==> k + Shifts(ops) < |s.history|
    ensures mid in Run(s, ops).msgs ==> IsOldest(Run(s, ops).history, mid, k + Shifts(ops))
    decreases |ops|
  {
    hide IsOldest, Do;
    OldestInRange(s.history, mid, k);
    if ops != [] {
      var t := Do(s, ops[0]);
      StepAges(s, mid, k, ops[0]);
      if mid in t.msgs {
        CachedUntilOldestLeaves(t, mid, if ops[0].ShiftOp? then k + 1 else k, ops[1..]);
      } else {
        StaysGone(t, mid, ops[1..]);
      }
    }
  }

  lemma OldestInRange(h: seq<seq<Entry>>, mid: MessageId, k: nat)
    ensures IsOldest(h, mid, k) ==> k < |h|
  {
  }

  lemma {:induction false} HasOldest(h: seq<seq<Entry>>, mid: MessageId) returns (k: nat)
    requires InWindow(h, mid)
    ensures IsOldest(h, mid, k)
  {
    hide CountMid;
    var n := |h| - 1;
    if CountMid(h[n], mid) > 0 {
      k := n;
    } else {
      assert InWindow(h[..n], mid) by {
        var i :| 0 <= i < |h| && CountMid(h[i], mid) > 0;
        assert h[..n][i] == h[i];
      }
      k := HasOldest(h[..n], mid);
      assert h[..n][k] == h[k];
      forall i | k < i < |h| ensures CountMid(h[i], mid) == 0 {
        if i < n { assert h[..n][i] == h[i]; }
      }
    }
  }

  lemma {:induction false} GoneOnceOldestLeaves(s: State, mid: MessageId, k: nat, ops: seq<Op>)
    requires s.history != [] && mid in s.msgs && IsOldest(s.history, mid, k) && NotPutAnew(s, mid, ops)
    requires k + Shifts(ops) >= |s.history|
    ensures mid !in Run(s, ops).msgs
    decreases |ops|
  {
    OldestInRange(s.history, mid, k);
    hide IsOldest, Do;
    var t := Do(s, ops[0]);
    if ops[0] != RemoveOp(mid) { StepAges(s, mid, k, ops[0]); } else { RemoveTakes(s, mid); }
    if mid in t.msgs {
      GoneOnceOldestLeaves(t, mid, if ops[0].ShiftOp? then k + 1 else k, ops[1..]);
    } else {
      StaysGone(t, mid, ops[1..]);
    }
  }

  lemma RemoveTakes(s: State, mid: MessageId)
    requires s.history != []
    ensures mid !in Do(s, RemoveOp(mid)).msgs
  {
  }

  /**
   * Whatever is called, removals of the id included: not put anew, it is gone after as many shifts as the window
   * has slots.
   */
  lemma GoneWithinCapacity(s: State, mid: MessageId, ops: seq<Op>)
    requires Inv(s) && NotPutAnew(s, mid, ops) && Shifts(ops) >= |s.history|
    ensures mid !in Run(s, ops).msgs
  {
    if mid in s.msgs {
      var k := HasOldest(s.history, mid);
      GoneOnceOldestLeaves(s, mid, k, ops);
    } else {
      StaysGone(s, mid, ops);
    }
  }

  // What is gossiped

  lemma {:induction false} FoundCount(msgs: map<MessageId, RawMessage>, entries: seq<Entry>,
                      topic: Topic, mid: MessageId)
    ensures multiset(Found(msgs, entries, topic))[mid] ==
            if Validated(msgs, mid) then CountEntry(entries, Entry(mid, topic)) else 0
  {
    if entries != [] {
      FoundCount(msgs, entries[..|entries| - 1], topic, mid);
    }
  }

  lemma {:induction false} FoundInCount(msgs: map<MessageId, RawMessage>, slots: seq<seq<Entry>>,
                      topic: Topic, mid: MessageId)
    ensures multiset(FoundIn(msgs, slots, topic))[mid] ==
            if Validated(msgs, mid) then Occurs(slots, Entry(mid, topic)) else 0
  {
    hide Found, CountEntry;
    if slots != [] {
      FoundCount(msgs, slots[0], topic, mid);
      FoundInCount(msgs, slots[1..], topic, mid);
    }
  }

  /**
   * A validated id is gossiped under a topic once for each of its entries with that topic in the gossip part of
   * the window.
   */
  lemma GossipedOncePerEntry(s: State, topic: Topic, mid: MessageId)
    requires s.gossip <= |s.history|
    ensures multiset(GossipIds(s, topic))[mid] ==
            if Validated(s.msgs, mid) then Occurs(s.history[..s.gossip], Entry(mid, topic)) else 0
  {
    FoundInCount(s.msgs, s.history[..s.gossip], topic, mid);
  }

  /** The window mentions each cached id once and no other id. */
  ghost predicate Once(s: State) {
    forall mid :: Mentions(s.history, mid) == if mid in s.msgs then 1 else 0
  }

  lemma PutKeepsOnce(s: State, m: MessageId, msg: RawMessage, mid: MessageId)
    requires s.history != []
    ensures Mentions(Put(s, m, msg).history, mid) ==
            Mentions(s.history, mid) + (if m !in s.msgs && m == mid then 1 else 0)
  {
    CountPush(s.history[0], Entry(m, msg.topic), mid);
    hide CountMid;
    var h := s.history[0 := s.history[0] + [Entry(m, msg.topic)]];
    assert h[1..] == s.history[1..];
  }

  lemma ShiftMentions(s: State, mid: MessageId)
    requires s.history != []
    ensures Mentions(s.history, mid) == Mentions(Shift(s).history, mid) + CountMid(s.history[|s.history| - 1], mid)
  {
    var n := |s.history| - 1;
    MentionsAppend([[]], s.history[..n], mid);
    MentionsAppend(s.history[..n], [s.history[n]], mid);
    assert s.history == s.history[..n] + [s.history[n]];
    assert Mentions([s.history[n]], mid) == CountMid(s.history[n], mid) by { assert [s.history[n]][1..] == []; }
    assert Mentions([[]], mid) == 0;
  }

  lemma StepKeepsOnce(s: State, op: Op)
    requires s.history != [] && Once(s) && !op.RemoveOp?
    ensures Once(Do(s, op))
  {
    hide Mentions, CountMid;
    var t := Do(s, op);
    forall mid ensures Mentions(t.history, mid) == if mid in t.msgs then 1 else 0 {
      match op
      case PutOp(m, msg) => PutKeepsOnce(s, m, msg, mid);
      case ShiftOp =>
        ShiftMentions(s, mid);
        CountMember(s.history[|s.history| - 1], mid);
      case GetOp(_, _) =>
      case ValidateOp(_) =>
    }
  }

  predicate NoRemove(ops: seq<Op>) {
    forall i :: 0 <= i < |ops| ==> !ops[i].RemoveOp?
  }

  lemma {:induction false} RunKeepsOnce(s: State, ops: seq<Op>)
    requires s.history != [] && Once(s) && NoRemove(ops)
    ensures Once(Run(s, ops))
    decreases |ops|
  {
    hide Once, Do;
    if ops != [] {
      StepKeepsOnce(s, ops[0]);
      RunKeepsOnce(Do(s, ops[0]), ops[1..]);
    }
  }

  lemma NewIsOnce(gossip: nat, capacity: nat)
    ensures Once(New(gossip, capacity))
  {
    forall mid ensures Mentions(New(gossip, capacity).history, mid) == 0 {
      NoMention(New(gossip, capacity).history, mid);
    }
  }

  /** The window mentions the entry's id in slot `k` only, and there by this entry only. */
  ghost predicate Sole(h: seq<seq<Entry>>, e: Entry, k: nat) {
    IsOldest(h, e.mid, k) && Mentions(h, e.mid) == 1 && CountEntry(h[k], e) == 1
  }

  lemma FreshIsSole(s: State, mid: MessageId, msg: RawMessage)
    requires s.history != [] && mid !in s.msgs && Mentions(s.history, mid) == 0
    ensures Sole(Put(s, mid, msg).history, Entry(mid, msg.topic), 0)
  {
    var e := Entry(mid, msg.topic);
    var h := Put(s, mid, msg).history;
    PutKeepsOnce(s, mid, msg, mid);
    CountPush(s.history[0], e, mid);
    EntryCounts(s.history[0], e);
    Mentioned(s.history, mid, 0);
    hide CountMid, CountEntry, Mentions;
    forall i | 0 < i < |h| ensures CountMid(h[i], mid) == 0 {
      Mentioned(s.history, mid, i);
    }
  }

  lemma {:induction false} EntryCounts(entries: seq<Entry>, e: Entry)
    ensures CountEntry(entries, e) <= CountMid(entries, e.mid)
  {
    if entries != [] { EntryCounts(entries[..|entries| - 1], e); }
  }

  lemma StepKeepsSole(s: State, e: Entry, k: nat, op: Op)
    requires s.history != [] && e.mid in s.msgs && Sole(s.history, e, k) && op != RemoveOp(e.mid)
    ensures var j := if op.ShiftOp? then k + 1 else k;
            j < |s.history| ==> Sole(Do(s, op).history, e, j)
  {
    StepAges(s, e.mid, k, op);
    hide Mentions, CountMid, CountEntry;
    match op
    case PutOp(m, msg) =>
      PutKeepsOnce(s, m, msg, e.mid);
      if k == 0 && m !in s.msgs { CountPush(s.history[0], Entry(m, msg.topic), e.mid); }
    case ShiftOp =>
      if k + 1 < |s.history| {
        ShiftMentions(s, e.mid);
        assert Shift(s).history[k + 1] == s.history[k];
      }
    case GetOp(_, _) =>
    case ValidateOp(_) =>
    case RemoveOp(_) =>
  }

  lemma {:induction false} StaysSole(s: State, e: Entry, k: nat, ops: seq<Op>)
    requires s.history != [] && e.mid in s.msgs && Sole(s.history, e, k) && Undisturbed(s, e.mid, ops)
    ensures k + Shifts(ops) < |s.history| ==> Sole(Run(s, ops).history, e, k + Shifts(ops))
    decreases |ops|
  {
    if ops != [] {
      assert k < |s.history|;
      StepAges(s, e.mid, k, ops[0]);
      StepKeepsSole(s, e, k, ops[0]);
      var j := if ops[0].ShiftOp? then k + 1 else k;
      hide Sole, IsOldest, Do;
      if j < |s.history| { StaysSole(Do(s, ops[0]), e, j, ops[1..]); }
    }
  }

  lemma {:induction false} OccursBound(slots: seq<seq<Entry>>, e: Entry)
    ensures Occurs(slots, e) <= Mentions(slots, e.mid)
  {
    hide CountEntry, CountMid;
    if slots != [] {
      OccursBound(slots[1..], e);
      EntryCounts(slots[0], e);
    }
  }

  lemma {:induction false} OccursBounds(slots: seq<seq<Entry>>, e: Entry, f: Entry)
    requires e.mid == f.mid && e != f
    ensures Occurs(slots, e) + Occurs(slots, f) <= Mentions(slots, e.mid)
  {
    hide CountEntry, CountMid;
    if slots != [] {
      OccursBounds(slots[1..], e, f);
      TwoEntries(slots[0], e, f);
    }
  }

  lemma {:induction false} TwoEntries(entries: seq<Entry>, e: Entry, f: Entry)
    requires e.mid == f.mid && e != f
    ensures CountEntry(entries, e) + CountEntry(entries, f) <= CountMid(entries, e.mid)
  {
    if entries != [] { TwoEntries(entries[..|entries| - 1], e, f); }
  }

  lemma {:induction false} OccursAt(slots: seq<seq<Entry>>, e: Entry, k: nat)
    requires k < |slots|
    ensures Occurs(slots, e) >= CountEntry(slots[k], e)
  {
    if k > 0 { OccursAt(slots[1..], e, k - 1); }
  }

  lemma SoleOccurs(h: seq<seq<Entry>>, e: Entry, k: nat, g: nat, topic: Topic)
    requires Sole(h, e, k) && g <= |h|
    ensures Occurs(h[..g], Entry(e.mid, topic)) == if k < g && topic == e.topic then 1 else 0
  {
    hide CountEntry, CountMid;
    var mid := e.mid;
    var f := Entry(mid, topic);
    MentionsAppend(h[..g], h[g..], mid);
    assert h == h[..g] + h[g..];
    OccursBound(h[..g], f);
    if k < g {
      assert h[..g][k] == h[k];
      OccursAt(h[..g], e, k);
      if topic != e.topic { OccursBounds(h[..g], e, f); }
    } else {
      assert h[g..][k - g] == h[k];
      Mentioned(h[g..], mid, k - g);
    }
  }

  /**
   * A message put for the first time, in any run without removals: after j shifts it is cached exactly when j is
   * less than the capacity, and, while it is validated, gossiped under its first topic exactly when j is less
   * than the gossip length, never twice and under no other topic.
   */
  lemma NewMessageWindow(gossip: nat, capacity: nat, before: seq<Op>, mid: MessageId, msg: RawMessage, ops: seq<Op>)
    requires gossip <= capacity && 0 < capacity && NoRemove(before)
    requires mid !in Run(New(gossip, capacity), before).msgs
    requires Undisturbed(Put(Run(New(gossip, capacity), before), mid, msg), mid, ops)
    ensures var t := Run(Put(Run(New(gossip, capacity), before), mid, msg), ops);
            && (mid in t.msgs <==> Shifts(ops) < capacity)
            && forall topic :: multiset(GossipIds(t, topic))[mid] ==
                    if Validated(t.msgs, mid) && Shifts(ops) < gossip && topic == msg.topic then 1 else 0
  {
    var s := Run(New(gossip, capacity), before);
    NewIsOnce(gossip, capacity);
    RunKeepsOnce(New(gossip, capacity), before);
    FreshIsSole(s, mid, msg);
    var e := Entry(mid, msg.topic);
    var put := Put(s, mid, msg);
    CachedUntilOldestLeaves(put, mid, 0, ops);
    StaysSole(put, e, 0, ops);
    var t := Run(put, ops);
    hide Sole, Run, Put, GossipIds;
    forall topic ensures multiset(GossipIds(t, topic))[mid] ==
        if Validated(t.msgs, mid) && Shifts(ops) < gossip && topic == msg.topic then 1 else 0
    {
      GossipedOncePerEntry(t, topic, mid);
      if mid in t.msgs { SoleOccurs(t.history, e, Shifts(ops), t.gossip, topic); }
    }
  }

  // What is gossiped, told by the calls

  /** Call `i` puts the id of `e`, with its topic, while that id is absent. */
  predicate PutsAnew(s: State, ops: seq<Op>, i: nat, e: Entry)
    requires s.history != [] && i < |ops|
  {
    ops[i].PutOp? && ops[i].mid == e.mid && ops[i].msg.topic == e.topic && e.mid !in Run(s, ops[..i]).msgs
  }

  /** The calls that put `e` anew and have had fewer than `g` shifts after them. */
  function RecentPuts(s: State, ops: seq<Op>, e: Entry, g: nat): set<nat>
    requires s.history != []
  {
    set i: nat | i < |ops| && PutsAnew(s, ops, i, e) && Shifts(ops[i + 1..]) < g
  }

  lemma {:induction false} RunSnoc(s: State, ops: seq<Op>, op: Op)
    requires s.history != []
    ensures Run(s, ops + [op]) == Do(Run(s, ops), op)
    decreases |ops|
  {
    hide Do;
    if ops == [] {
      assert ops + [op] == [op];
    } else {
      RunSnoc(Do(s, ops[0]), ops[1..], op);
      assert (ops + [op])[1..] == ops[1..] + [op];
    }
  }

  lemma {:induction false} ShiftsSnoc(ops: seq<Op>, op: Op)
    ensures Shifts(ops + [op]) == Shifts(ops) + (if op.ShiftOp? then 1 else 0)
  {
    if ops == [] {
      assert ops + [op] == [op];
    } else {
      ShiftsSnoc(ops[1..], op);
      assert (ops + [op])[1..] == ops[1..] + [op];
    }
  }

  /** One more call: a shift ages the earlier puts, and a put made anew is added. */
  lemma RecentPutsSnoc(s: State, ops: seq<Op>, op: Op, e: Entry, g: nat)
    requires s.history != []
    ensures var before := RecentPuts(s, ops, e, if op.ShiftOp? && g > 0 then g - 1 else g);
            RecentPuts(s, ops + [op], e, g) ==
            if op.ShiftOp? && g == 0 then {}
            else if g > 0 && op.PutOp? && op.mid == e.mid && op.msg.topic == e.topic && e.mid !in Run(s, ops).msgs
            then before + {|ops|} else before
  {
    hide Run;
    var all, n := ops + [op], |ops|;
    assert all[..n] == ops && all[n + 1..] == [] && Shifts([]) == 0;
    forall i: nat | i < n
      ensures PutsAnew(s, all, i, e) == PutsAnew(s, ops, i, e)
      ensures Shifts(all[i + 1..]) == Shifts(ops[i + 1..]) + (if op.ShiftOp? then 1 else 0)
    {
      assert all[..i] == ops[..i] && all[i + 1..] == ops[i + 1..] + [op];
      ShiftsSnoc(ops[i + 1..], op);
    }
  }

  lemma PutOccurs(s: State, m: MessageId, msg: RawMessage, e: Entry, g: nat)
    requires s.history != [] && g <= |s.history|
    ensures Occurs(Put(s, m, msg).history[..g], e) ==
            Occurs(s.history[..g], e) + (if g > 0 && m !in s.msgs && Entry(m, msg.topic) == e then 1 else 0)
  {
    CountPush(s.history[0], Entry(m, msg.topic), e.mid);
    hide CountEntry;
    if g > 0 && m !in s.msgs {
      var h := Put(s, m, msg).history;
      assert h[..g][1..] == s.history[..g][1..];
    }
  }

  lemma ShiftOccurs(s: State, e: Entry, g: nat)
    requires s.history != [] && g <= |s.history|
    ensures Occurs(Shift(s).history[..g], e) == if g == 0 then 0 else Occurs(s.history[..g - 1], e)
  {
    if g > 0 {
      var h := Shift(s).history;
      assert h[..g][1..] == s.history[..g - 1] && h[..g][0] == [];
    }
  }

  /** In every run of a new cache, the youngest `g` slots mention an entry once for each recent put of it anew. */
  lemma {:induction false} MentionedOncePerPut(gossip: nat, capacity: nat, ops: seq<Op>, e: Entry, g: nat)
    requires 0 < capacity && g <= capacity
    ensures Occurs(Run(New(gossip, capacity), ops).history[..g], e) == |RecentPuts(New(gossip, capacity), ops, e, g)|
    decreases |ops|
  {
    hide Run, Put, Shift, Occurs, RecentPuts;
    var s := New(gossip, capacity);
    if ops == [] {
      NothingPut(gossip, capacity, e, g);
    } else {
      var n := |ops| - 1;
      var before, op := ops[..n], ops[n];
      assert ops == before + [op];
      RunSnoc(s, before, op);
      var t := Run(s, before);
      RecentPutsSnoc(s, before, op, e, g);
      match op
      case ShiftOp =>
        ShiftOccurs(t, e, g);
        if g > 0 { MentionedOncePerPut(gossip, capacity, before, e, g - 1); }
      case PutOp(m, msg) =>
        PutOccurs(t, m, msg, e, g);
        MentionedOncePerPut(gossip, capacity, before, e, g);
        NotAmong(s, before, e, g);
      case GetOp(_, _) => MentionedOncePerPut(gossip, capacity, before, e, g);
      case ValidateOp(_) => MentionedOncePerPut(gossip, capacity, before, e, g);
      case RemoveOp(_) => MentionedOncePerPut(gossip, capacity, before, e, g);
    }
  }

  lemma NotAmong(s: State, ops: seq<Op>, e: Entry, g: nat)
    requires s.history != []
    ensures |ops| !in RecentPuts(s, ops, e, g)
  {
  }

  lemma NothingPut(gossip: nat, capacity: nat, e: Entry, g: nat)
    requires 0 < capacity && g <= capacity
    ensures Occurs(Run(New(gossip, capacity), []).history[..g], e) == 0
    ensures RecentPuts(New(gossip, capacity), [], e, g) == {}
  {
    var h := New(gossip, capacity).history[..g];
    NoMention(h, e.mid);
    OccursBound(h, e);
  }

  /**
   * In every run of a new cache, removals included: a validated id is gossiped under a topic as often as it was put
   * with that topic while absent, with fewer shifts since than the gossip length.
   */
  lemma GossipedOncePerPut(gossip: nat, capacity: nat, ops: seq<Op>, mid: MessageId, topic: Topic)
    requires gossip <= capacity && 0 < capacity
    ensures var s := New(gossip, capacity);
            multiset(GossipIds(Run(s, ops), topic))[mid] ==
            if Validated(Run(s, ops).msgs, mid) then |RecentPuts(s, ops, Entry(mid, topic), gossip)| else 0
  {
    GossipedOncePerEntry(Run(New(gossip, capacity), ops), topic, mid);
    MentionedOncePerPut(gossip, capacity, ops, Entry(mid, topic), gossip);
  }

  // What is cached and counted, told by the calls

  predicate Puts(op: Op, mid: MessageId) {
    op.PutOp? && op.mid == mid
  }

  /** The last call that puts an id. */
  function LastPut(ops: seq<Op>, mid: MessageId): (r: Option<nat>)
    ensures r.Some? ==>
              r.value < |ops| && Puts(ops[r.value], mid) && forall j :: r.value < j < |ops| ==> !Puts(ops[j], mid)
    ensures r.None? ==> forall j :: 0 <= j < |ops| ==> !Puts(ops[j], mid)
  {
    if ops == [] then None
    else if Puts(ops[|ops| - 1], mid) then Some(|ops| - 1)
    else LastPut(ops[..|ops| - 1], mid)
  }

  predicate ValidatedAfter(ops: seq<Op>, i: nat, mid: MessageId) {
    exists j :: i < j < |ops| && ops[j] == ValidateOp(mid)
  }

  lemma ValidatedSnoc(ops: seq<Op>, op: Op, i: nat, mid: MessageId)
    requires i < |ops|
    ensures ValidatedAfter(ops + [op], i, mid) <==> ValidatedAfter(ops, i, mid) || op == ValidateOp(mid)
    ensures !ValidatedAfter(ops + [op], |ops|, mid)
  {
    var all := ops + [op];
    if j :| i < j < |ops| && ops[j] == ValidateOp(mid) { assert all[j] == ValidateOp(mid); }
    if op == ValidateOp(mid) { assert all[|ops|] == op; }
  }

  lemma LastPutSnoc(ops: seq<Op>, op: Op, mid: MessageId)
    ensures LastPut(ops + [op], mid) == if Puts(op, mid) then Some(|ops|) else LastPut(ops, mid)
  {
    assert (ops + [op])[..|ops|] == ops;
  }

  /** One call's effect on a message that is cached after it. */
  lemma StepStores(s: State, op: Op, mid: MessageId)
    requires s.history != [] && mid in Do(s, op).msgs
    ensures var m := Do(s, op).msgs[mid];
            if Puts(op, mid) then m == op.msg
            else mid in s.msgs && m.data == s.msgs[mid].data && m.topic == s.msgs[mid].topic
                 && (m.validated <==> s.msgs[mid].validated || op == ValidateOp(mid))
  {
  }

  /**
   * In every run a cached message is the one put last under its id, and is validated if and only if it was put so or
   * a validation of the id came after that put.
   */
  lemma {:induction false} CachedAsLastPut(gossip: nat, capacity: nat, ops: seq<Op>, mid: MessageId)
    requires 0 < capacity && mid in Run(New(gossip, capacity), ops).msgs
    ensures LastPut(ops, mid).Some?
    ensures var i, m := LastPut(ops, mid).value, Run(New(gossip, capacity), ops).msgs[mid];
            && m.data == ops[i].msg.data && m.topic == ops[i].msg.topic
            && (m.validated <==> ops[i].msg.validated || ValidatedAfter(ops, i, mid))
    decreases |ops|
  {
    hide Run, Do, LastPut, ValidatedAfter;
    var s := New(gossip, capacity);
    NoCalls(s);
    var n := |ops| - 1;
    var before, op := ops[..n], ops[n];
    assert ops == before + [op];
    RunSnoc(s, before, op);
    StepStores(Run(s, before), op, mid);
    LastPutSnoc(before, op, mid);
    if !Puts(op, mid) {
      CachedAsLastPut(gossip, capacity, before, mid);
      ValidatedSnoc(before, op, LastPut(before, mid).value, mid);
    } else if n > 0 {
      ValidatedSnoc(before, op, 0, mid);
    } else {
      OnlyCall(op, mid);
    }
  }

  lemma NoCalls(s: State)
    requires s.history != []
    ensures Run(s, []) == s
  {
  }

  lemma OnlyCall(op: Op, mid: MessageId)
    ensures !ValidatedAfter([] + [op], 0, mid)
  {
  }

  /** The id is cached after the first `k` calls. */
  predicate CachedAt(s: State, ops: seq<Op>, mid: MessageId, k: nat)
    requires s.history != []
  {
    k <= |ops| && mid in Run(s, ops[..k]).msgs
  }

  /** Call `i` asks for the id on behalf of the peer, is answered, and the id has been cached ever since. */
  ghost predicate Serves(s: State, ops: seq<Op>, i: nat, mid: MessageId, peer: PeerId)
    requires s.history != []
  {
    && i < |ops| && ops[i] == GetOp(mid, peer) && Validated(Run(s, ops[..i]).msgs, mid)
    && forall k: nat :: i <= k <= |ops| ==> CachedAt(s, ops, mid, k)
  }

  ghost function Served(s: State, ops: seq<Op>, mid: MessageId, peer: PeerId): set<nat>
    requires s.history != []
  {
    set i: nat | i < |ops| && Serves(s, ops, i, mid, peer)
  }

  lemma CachedEarlier(s: State, before: seq<Op>, op: Op, mid: MessageId, k: nat)
    requires s.history != []
    ensures k <= |before| ==> CachedAt(s, before + [op], mid, k) == CachedAt(s, before, mid, k)
    ensures CachedAt(s, before, mid, |before|) == (mid in Run(s, before).msgs)
    ensures CachedAt(s, before + [op], mid, |before| + 1) == (mid in Do(Run(s, before), op).msgs)
  {
    hide Run, Do;
    RunSnoc(s, before, op);
    if k <= |before| { assert (before + [op])[..k] == before[..k]; }
    assert before[..|before|] == before && (before + [op])[..|before| + 1] == before + [op];
  }

  lemma ServesSnoc(s: State, before: seq<Op>, op: Op, i: nat, mid: MessageId, peer: PeerId)
    requires s.history != []
    ensures var t := Run(s, before);
            Serves(s, before + [op], i, mid, peer) <==>
            && mid in Do(t, op).msgs
            && (Serves(s, before, i, mid, peer)
                || (i == |before| && op == GetOp(mid, peer) && Validated(t.msgs, mid)))
  {
    hide Run, Do, CachedAt;
    var all, n := before + [op], |before|;
    CachedEarlier(s, before, op, mid, n);
    assert all[..n] == before;
    if i < n { assert all[..i] == before[..i] && all[i] == before[i]; }
    if Serves(s, all, i, mid, peer) {
      assert CachedAt(s, all, mid, n + 1);
      forall k: nat | i <= k <= n ensures CachedAt(s, before, mid, k) {
        CachedEarlier(s, before, op, mid, k);
      }
    }
    if mid in Do(Run(s, before), op).msgs {
      if Serves(s, before, i, mid, peer) || (i == n && op == GetOp(mid, peer) && Validated(Run(s, before).msgs, mid)) {
        forall k: nat | i <= k <= n + 1 ensures CachedAt(s, all, mid, k) {
          CachedEarlier(s, before, op, mid, k);
        }
      }
    }
  }

  lemma StepAsks(s: State, op: Op, mid: MessageId, peer: PeerId)
    requires Inv(s) && mid in Do(s, op).msgs
    ensures Asked(Do(s, op).iwant, mid, peer) ==
            Asked(s.iwant, mid, peer) + (if op == GetOp(mid, peer) && Validated(s.msgs, mid) then 1 else 0)
    ensures mid !in s.msgs ==> Asked(s.iwant, mid, peer) == 0
  {
  }

  /** In every run a peer's count for an id is the number of its requests answered since the id was last absent. */
  lemma {:induction false} CountIsAnsweredRequests(gossip: nat, capacity: nat, ops: seq<Op>, mid: MessageId,
                                                   peer: PeerId)
    requires gossip <= capacity && 0 < capacity
    ensures var s := New(gossip, capacity);
            Asked(Run(s, ops).iwant, mid, peer) == |Served(s, ops, mid, peer)|
    decreases |ops|
  {
    hide Run, Do, Serves, Inv;
    var s := New(gossip, capacity);
    EveryRunIsValid(gossip, capacity, ops);
    NoCalls(s);
    if ops == [] {
      assert Served(s, ops, mid, peer) == {};
    } else {
      var n := |ops| - 1;
      var before, op := ops[..n], ops[n];
      assert ops == before + [op];
      RunSnoc(s, before, op);
      var t := Run(s, before);
      CountIsAnsweredRequests(gossip, capacity, before, mid, peer);
      EveryRunIsValid(gossip, capacity, before);
      forall i: nat
        ensures Serves(s, ops, i, mid, peer) <==>
                && mid in Do(t, op).msgs
                && (Serves(s, before, i, mid, peer) || (i == n && op == GetOp(mid, peer) && Validated(t.msgs, mid)))
      {
        ServesSnoc(s, before, op, i, mid, peer);
      }
      BeyondIsNotServed(s, before, mid, peer);
      if mid !in Do(t, op).msgs {
        assert Served(s, ops, mid, peer) == {};
        AbsentIsNotAsked(Do(t, op), mid, peer);
      } else {
        StepAsks(t, op, mid, peer);
        var earlier := Served(s, before, mid, peer);
        if op == GetOp(mid, peer) && Validated(t.msgs, mid) {
          assert Served(s, ops, mid, peer) == earlier + {n};
        } else {
          assert Served(s, ops, mid, peer) == earlier;
        }
      }
    }
  }

  lemma BeyondIsNotServed(s: State, ops: seq<Op>, mid: MessageId, peer: PeerId)
    requires s.history != []
    ensures forall i: nat :: Serves(s, ops, i, mid, peer) ==> i < |ops|
  {
  }

  lemma AbsentIsNotAsked(s: State, mid: MessageId, peer: PeerId)
    requires Inv(s) && mid !in s.msgs
    ensures Asked(s.iwant, mid, peer) == 0
  {
  }

  // With removals

  const A := RawMessage("a", "t", true)

  /** Removed and put again, an id is twice in the window and gossiped twice. */
  lemma RemovedThenPutIsGossipedTwice()
    ensures GossipIds(Run(New(1, 2), [PutOp("m", A), RemoveOp("m"), PutOp("m", A)]), "t") == ["m", "m"]
  {
    var s1 := Put(New(1, 2), "m", A);
    var s2 := Remove(s1, "m");
    var s3 := Put(s2, "m", A);
    assert Run(s3, []) == s3;
    assert Run(s2, [PutOp("m", A)]) == s3;
    assert Run(s1, [RemoveOp("m"), PutOp("m", A)]) == s3;
    var e := Entry("m", "t");
    assert s3.history[0] == [e, e];
    assert Found(s3.msgs, [e], "t") == ["m"] by { assert [e][..0] == [] && Found(s3.msgs, [], "t") == []; }
    assert Found(s3.msgs, [e, e], "t") == ["m", "m"] by { assert [e, e][..1] == [e]; }
    assert s3.history[..1] == [[e, e]];
    assert FoundIn(s3.msgs, [], "t") == [];
  }

  /** Removed and put again, an id leaves with its older mention: here after one shift, in a window of two. */
  lemma RemovedThenPutLeavesEarly()
    ensures "m" !in Run(New(1, 2), [PutOp("m", A), ShiftOp, RemoveOp("m"), PutOp("m", A), ShiftOp]).msgs
  {
    var s1 := Put(New(1, 2), "m", A);
    var s2 := Shift(s1);
    var s3 := Remove(s2, "m");
    var s4 := Put(s3, "m", A);
    var s5 := Shift(s4);
    assert Run(s5, []) == s5;
    assert Run(s4, [ShiftOp]) == s5;
    assert Run(s3, [PutOp("m", A), ShiftOp]) == s5;
    assert Run(s2, [RemoveOp("m"), PutOp("m", A), ShiftOp]) == s5;
    assert Run(s1, [ShiftOp, RemoveOp("m"), PutOp("m", A), ShiftOp]) == s5;
    assert s4.history[1] == [Entry("m", "t")];
  }
}
