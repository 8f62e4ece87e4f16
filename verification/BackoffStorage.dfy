/** Backoffs of pruned peers: a cyclic wheel of heartbeat slots that refines a plain map of deadlines. */
module BackoffStorage {
  import opened Bytes

  type Topic = string
  type Peer = string
  type Pair = (Topic, Peer)

  datatype Entry = Entry(deadline: nat, slot: nat)

  /** What the storage means: the entries, and where the wheel stands. Times and durations are in nanoseconds. */
  datatype State = State(interval: nat, slack: nat, length: nat, index: nat, entries: map<Pair, Entry>)

  /** Whole heartbeats that cover `d`. */
  function Heartbeats(d: nat, interval: nat): (n: nat)
    requires interval > 0
    ensures d <= n * interval < d + interval
  {
    (d + interval - 1) / interval
  }

  ghost predicate WellFormed(s: State) {
    && s.interval > 0 && s.index < s.length
    && forall p :: p in s.entries ==> s.entries[p].slot < s.length
  }

  function New(pruneBackoff: nat, interval: nat, slack: nat): State
    requires interval > 0
  {
    State(interval, slack, Heartbeats(pruneBackoff, interval) + slack + 1, 0, map[])
  }

  function SlotFor(s: State, time: nat): nat
    requires s.interval > 0 && s.length > 0
  {
    (s.index + Heartbeats(time, s.interval) + s.slack) % s.length
  }

  /** A later deadline replaces an earlier one and moves the pair to its slot; an earlier one changes nothing. */
  function Update(s: State, p: Pair, now: nat, time: nat): State
    requires s.interval > 0 && s.length > 0
  {
    if p in s.entries && s.entries[p].deadline >= now + time then s
    else s.(entries := s.entries[p := Entry(now + time, SlotFor(s, time))])
  }

  predicate Expired(s: State, e: Entry, now: nat) {
    e.deadline + s.interval * s.slack <= now
  }

  predicate Leaves(s: State, e: Entry, now: nat) {
    e.slot == s.index && Expired(s, e, now)
  }

  /** A heartbeat drops the expired entries of the current slot and moves on. */
  function Beat(s: State, now: nat): State
    requires s.length > 0
  {
    s.(entries := map p | p in s.entries && !Leaves(s, s.entries[p], now) :: s.entries[p],
       index := (s.index + 1) % s.length)
  }

  // The wheel

  type Backoffs = map<Topic, map<Peer, Entry>>

  function Lookup(backoffs: Backoffs, p: Pair): Option<Entry> {
    if p.0 in backoffs && p.1 in backoffs[p.0] then Some(backoffs[p.0][p.1]) else None
  }

  function Flatten(backoffs: Backoffs): (m: map<Pair, Entry>)
    ensures forall p :: p in m <==> Lookup(backoffs, p).Some?
    ensures forall p :: p in m ==> m[p] == Lookup(backoffs, p).value
  {
    map t, q | t in backoffs && q in backoffs[t] :: (t, q) := backoffs[t][q]
  }

  /** A pair is in exactly the slot its entry records. */
  ghost predicate InOwnSlot(backoffs: Backoffs, wheel: seq<set<Pair>>) {
    && (forall p :: Lookup(backoffs, p).Some? ==> Lookup(backoffs, p).value.slot < |wheel|)
    && (forall i, p :: 0 <= i < |wheel| ==>
         (p in wheel[i] <==> Lookup(backoffs, p).Some? && Lookup(backoffs, p).value.slot == i))
  }

  /** The same lookups, except that `p` now finds `e`. */
  ghost predicate Sets(was: Backoffs, now: Backoffs, p: Pair, e: Option<Entry>) {
    forall q :: Lookup(now, q) == if q == p then e else Lookup(was, q)
  }

  /** Every pair but `p` is in its own slot, and `p` is in none. */
  ghost predicate Cleared(backoffs: Backoffs, wheel: seq<set<Pair>>, p: Pair) {
    && (forall q :: Lookup(backoffs, q).Some? ==> Lookup(backoffs, q).value.slot < |wheel|)
    && (forall i, q :: 0 <= i < |wheel| ==>
         (q in wheel[i] <==> q != p && Lookup(backoffs, q).Some? && Lookup(backoffs, q).value.slot == i))
  }

  lemma Clears(backoffs: Backoffs, wheel: seq<set<Pair>>, p: Pair)
    requires InOwnSlot(backoffs, wheel)
    ensures Lookup(backoffs, p).Some? ==>
              var i := Lookup(backoffs, p).value.slot; i < |wheel| && Cleared(backoffs, wheel[i := wheel[i] - {p}], p)
    ensures Lookup(backoffs, p).None? ==> Cleared(backoffs, wheel, p)
  {
    hide Lookup;
  }

  lemma Places(was: Backoffs, now: Backoffs, wheel: seq<set<Pair>>, p: Pair, e: Entry)
    requires Cleared(was, wheel, p) && Sets(was, now, p, Some(e)) && e.slot < |wheel|
    ensures InOwnSlot(now, wheel[e.slot := wheel[e.slot] + {p}])
  {
    hide Lookup;
    var placed := wheel[e.slot := wheel[e.slot] + {p}];
    forall i, q | 0 <= i < |wheel|
      ensures q in placed[i] <==> Lookup(now, q).Some? && Lookup(now, q).value.slot == i
    {
      assert q in wheel[i] <==> q != p && Lookup(was, q).Some? && Lookup(was, q).value.slot == i;
    }
  }

  lemma FlattenSets(was: Backoffs, now: Backoffs, p: Pair, e: Entry)
    requires Sets(was, now, p, Some(e))
    ensures Flatten(now) == Flatten(was)[p := e]
  {
    hide Lookup, Flatten;
  }

  predicate Drops(backoffs: Backoffs, p: Pair, slackTime: nat, now: nat) {
    Lookup(backoffs, p).None? || Lookup(backoffs, p).value.deadline + slackTime <= now
  }

  lemma LookupIsFlatten(backoffs: Backoffs, p: Pair)
    ensures p in Flatten(backoffs) <==> Lookup(backoffs, p).Some?
    ensures p in Flatten(backoffs) ==> Flatten(backoffs)[p] == Lookup(backoffs, p).value
  {
  }

  /** Dropping the expired pairs of one slot leaves every other pair in its own slot. */
  lemma Swept(was: Backoffs, now: Backoffs, wheel: seq<set<Pair>>, i: nat, kept: set<Pair>, slackTime: nat, time: nat)
    requires InOwnSlot(was, wheel) && i < |wheel|
    requires forall q :: Lookup(now, q) ==
               if q in wheel[i] && Drops(was, q, slackTime, time) then None else Lookup(was, q)
    requires forall q :: q in kept <==> q in wheel[i] && !Drops(was, q, slackTime, time)
    ensures InOwnSlot(now, wheel[i := kept])
    ensures forall q :: q in Flatten(now) <==>
              q in Flatten(was) && !(Flatten(was)[q].slot == i && Flatten(was)[q].deadline + slackTime <= time)
    ensures forall q :: q in Flatten(now) ==> Flatten(now)[q] == Flatten(was)[q]
  {
    hide Lookup, Flatten;
  }

  lemma BeatIsSweep(s: State, left: map<Pair, Entry>, slackTime: nat, now: nat)
    requires s.length > 0 && slackTime == s.interval * s.slack
    requires forall q :: q in left <==>
               q in s.entries && !(s.entries[q].slot == s.index && s.entries[q].deadline + slackTime <= now)
    requires forall q :: q in left ==> left[q] == s.entries[q]
    ensures left == Beat(s, now).entries
  {
  }

  class BackoffStorage {
    var backoffs: Backoffs
    var byHeartbeat: seq<set<Pair>>
    var heartbeatIndex: nat
    const interval: nat
    const slack: nat

    /** Every pair is in its own slot, and no topic is kept without peers. */
    ghost predicate Valid()
      reads this
    {
      && interval > 0 && heartbeatIndex < |byHeartbeat|
      && (forall t :: t in backoffs ==> backoffs[t] != map[])
      && InOwnSlot(backoffs, byHeartbeat)
    }

    function View(): State
      reads this
    {
      State(interval, slack, |byHeartbeat|, heartbeatIndex, Flatten(backoffs))
    }

    constructor (pruneBackoff: nat, interval: nat, slack: nat)
      requires interval > 0
      ensures Valid() && View() == New(pruneBackoff, interval, slack)
    {
      this.interval, this.slack := interval, slack;
      backoffs := map[];
      byHeartbeat := seq(Heartbeats(pruneBackoff, interval) + slack + 1, _ => {});
      heartbeatIndex := 0;
    }

    method InsertIntoSlot(p: Pair, time: nat) returns (index: nat)
      requires interval > 0 && heartbeatIndex < |byHeartbeat|
      modifies this`byHeartbeat
      ensures index == SlotFor(old(View()), time) < |old(byHeartbeat)|
      ensures byHeartbeat == old(byHeartbeat)[index := old(byHeartbeat)[index] + {p}]
    {
      hide Flatten, Lookup, Heartbeats;
      index := (heartbeatIndex + Heartbeats(time, interval) + slack) % |byHeartbeat|;
      byHeartbeat := byHeartbeat[index := byHeartbeat[index] + {p}];
    }

    /** Stores an entry under a pair that no slot holds, and puts the pair into the entry's slot. */
    method Place(topic: Topic, peer: Peer, peers: map<Peer, Entry>, instant: nat, time: nat)
      requires interval > 0 && heartbeatIndex < |byHeartbeat| && Cleared(backoffs, byHeartbeat, (topic, peer))
      requires peers == if topic in backoffs then backoffs[topic] else map[]
      requires forall t :: t in backoffs ==> backoffs[t] != map[]
      modifies this
      ensures Valid() && heartbeatIndex == old(heartbeatIndex) && |byHeartbeat| == |old(byHeartbeat)|
      ensures Flatten(backoffs) == Flatten(old(backoffs))[(topic, peer) := Entry(instant, SlotFor(old(View()), time))]
    {
      hide InOwnSlot, Cleared, Flatten;
      var index := InsertIntoSlot((topic, peer), time);
      backoffs := backoffs[topic := peers[peer := Entry(instant, index)]];
      assert peer in backoffs[topic];
      assert Sets(old(backoffs), backoffs, (topic, peer), Some(Entry(instant, index)));
      Places(old(backoffs), backoffs, old(byHeartbeat), (topic, peer), Entry(instant, index));
      FlattenSets(old(backoffs), backoffs, (topic, peer), Entry(instant, index));
    }

    method UpdateBackoff(topic: Topic, peer: Peer, now: nat, time: nat)
      requires Valid()
      modifies this
      ensures Valid() && View() == Update(old(View()), (topic, peer), now, time)
    {
      hide InOwnSlot, Cleared, Flatten;
      var p := (topic, peer);
      var instant := now + time;
      var peers := if topic in backoffs then backoffs[topic] else map[];
      Clears(backoffs, byHeartbeat, p);
      if peer in peers {
        var e := peers[peer];
        if e.deadline < instant {
          if e.slot < |byHeartbeat| { byHeartbeat := byHeartbeat[e.slot := byHeartbeat[e.slot] - {p}]; }
          Place(topic, peer, peers, instant, time);
        }
      } else {
        Place(topic, peer, peers, instant, time);
      }
    }

    /** Removes a pair from the nested map, and its topic when no peer is left. */
    method Forget(p: Pair)
      requires forall t :: t in backoffs ==> backoffs[t] != map[]
      modifies this`backoffs
      ensures Sets(old(backoffs), backoffs, p, None)
      ensures forall t :: t in backoffs ==> backoffs[t] != map[]
    {
      if p.0 in backoffs {
        var peers := backoffs[p.0] - {p.1};
        assert forall r :: r in backoffs[p.0] && r != p.1 ==> r in peers;
        backoffs := if peers == map[] then backoffs - {p.0} else backoffs[p.0 := peers];
      }
    }

    method Heartbeat(now: nat)
      requires Valid()
      modifies this
      ensures Valid() && View() == Beat(old(View()), now)
    {
      hide InOwnSlot, Flatten, Lookup;
      ghost var was := backoffs;
      var slot := byHeartbeat[heartbeatIndex];
      var slackTime := interval * slack;
      var kept: set<Pair> := {};
      var todo := slot;
      while todo != {}
        invariant todo <= slot && byHeartbeat == old(byHeartbeat) && heartbeatIndex == old(heartbeatIndex)
        invariant forall t :: t in backoffs ==> backoffs[t] != map[]
        invariant forall q :: Lookup(backoffs, q) ==
                    if q in slot && q !in todo && Drops(was, q, slackTime, now) then None else Lookup(was, q)
        invariant forall q :: q in kept <==> q in slot && q !in todo && !Drops(was, q, slackTime, now)
        decreases todo
      {
        var p :| p in todo;
        todo := todo - {p};
        var time := GetBackoffTime(p.0, p.1);
        var keep := time.Some? && time.value + slackTime > now;
        LookupIsFlatten(backoffs, p);
        if keep {
          kept := kept + {p};
        } else {
          Forget(p);
        }
      }
      byHeartbeat := byHeartbeat[heartbeatIndex := kept];
      heartbeatIndex := (heartbeatIndex + 1) % |byHeartbeat|;
      Swept(was, backoffs, old(byHeartbeat), old(heartbeatIndex), kept, slackTime, now);
      BeatIsSweep(old(View()), Flatten(backoffs), slackTime, now);
    }

    method IsBackoffWithSlack(topic: Topic, peer: Peer) returns (r: bool)
      ensures r <==> (topic, peer) in View().entries
    {
      r := topic in backoffs && peer in backoffs[topic];
    }

    method GetBackoffTime(topic: Topic, peer: Peer) returns (r: Option<nat>)
      ensures r == if (topic, peer) in View().entries then Some(View().entries[(topic, peer)].deadline) else None
    {
      r := if topic in backoffs && peer in backoffs[topic] then Some(backoffs[topic][peer].deadline) else None;
    }
  }

  // Runs

  datatype Op = Set(pair: Pair, now: nat, time: nat) | Tick(now: nat)

  function Apply(s: State, op: Op): (t: State)
    requires WellFormed(s)
    ensures WellFormed(t) && t.interval == s.interval && t.slack == s.slack && t.length == s.length
  {
    match op
    case Set(p, now, time) => Update(s, p, now, time)
    case Tick(now) => Beat(s, now)
  }

  function Run(s: State, ops: seq<Op>): (t: State)
    requires WellFormed(s)
    ensures WellFormed(t) && t.interval == s.interval && t.slack == s.slack && t.length == s.length
    decreases |ops|
  {
    if ops == [] then s else Run(Apply(s, ops[0]), ops[1..])
  }

  function Deadlines(s: State): map<Pair, nat> {
    map p | p in s.entries :: s.entries[p].deadline
  }

  /**
   * One step of the plain map of deadlines: an update takes the maximum, a heartbeat may only drop expired
   * deadlines.
   */
  ghost predicate PlainStep(before: map<Pair, nat>, op: Op, after: map<Pair, nat>, slackTime: nat) {
    match op
    case Set(p, now, time) =>
      after == before[p := if p in before && before[p] >= now + time then before[p] else now + time]
    case Tick(now) =>
      && (forall p :: p in after ==> p in before && after[p] == before[p])
      && (forall p :: p in before && p !in after ==> before[p] + slackTime <= now)
  }

  /** The storage refines the plain map. */
  lemma RefinesPlainMap(s: State, op: Op)
    requires WellFormed(s)
    ensures PlainStep(Deadlines(s), op, Deadlines(Apply(s, op)), s.interval * s.slack)
  {
    if op.Set? && op.pair in s.entries && s.entries[op.pair].deadline >= op.now + op.time {
      assert Deadlines(s)[op.pair := Deadlines(s)[op.pair]] == Deadlines(s);
    }
  }

  predicate BackedOff(s: State, p: Pair, until: nat) {
    p in s.entries && s.entries[p].deadline >= until
  }

  /**
   * A pair stays backed off, with no earlier deadline, through every run that ends before its deadline plus the
   * slack.
   */
  lemma {:induction false} StaysUntilSlackIsOver(s: State, ops: seq<Op>, p: Pair, until: nat)
    requires WellFormed(s) && BackedOff(s, p, until)
    requires forall op :: op in ops ==> op.now < until + s.interval * s.slack
    ensures BackedOff(Run(s, ops), p, until)
    decreases |ops|
  {
    if ops != [] {
      assert ops[0] in ops;
      StaysUntilSlackIsOver(Apply(s, ops[0]), ops[1..], p, until);
    }
  }

  /** After an update the pair is backed off until the requested time at least, whatever was stored before. */
  lemma UpdateBacksOff(s: State, p: Pair, now: nat, time: nat, ops: seq<Op>)
    requires WellFormed(s)
    requires forall op :: op in ops ==> op.now < now + time + s.interval * s.slack
    ensures BackedOff(Run(Update(s, p, now, time), ops), p, now + time)
  {
    assert WellFormed(Apply(s, Set(p, now, time)));
    StaysUntilSlackIsOver(Update(s, p, now, time), ops, p, now + time);
  }

  /** The latest time requested for a pair. */
  function Latest(ops: seq<Op>, p: Pair): nat {
    if ops == [] then 0
    else
      var n := |ops| - 1;
      var earlier := Latest(ops[..n], p);
      if ops[n].Set? && ops[n].pair == p && ops[n].now + ops[n].time > earlier
      then ops[n].now + ops[n].time else earlier
  }

  lemma {:induction false} RunSnoc(s: State, ops: seq<Op>, op: Op)
    requires WellFormed(s)
    ensures Run(s, ops + [op]) == Apply(Run(s, ops), op)
    decreases |ops|
  {
    if ops == [] {
      assert ops + [op] == [op];
    } else {
      RunSnoc(Apply(s, ops[0]), ops[1..], op);
      assert (ops + [op])[1..] == ops[1..] + [op];
    }
  }

  /** One more call: the stored deadline takes the maximum, or is set for a pair that was absent. */
  lemma ApplyDeadline(s: State, op: Op, p: Pair)
    requires WellFormed(s) && p in Apply(s, op).entries
    ensures var deadline := Apply(s, op).entries[p].deadline;
            if p in s.entries then
              deadline == (if op.Set? && op.pair == p && op.now + op.time > s.entries[p].deadline
                           then op.now + op.time else s.entries[p].deadline)
            else op.Set? && op.pair == p && deadline == op.now + op.time
  {
  }

  lemma LatestSnoc(before: seq<Op>, op: Op, p: Pair, since: nat)
    requires since <= |before|
    ensures var earlier := Latest(before[since..], p);
            Latest((before + [op])[since..], p) ==
            (if op.Set? && op.pair == p && op.now + op.time > earlier then op.now + op.time else earlier)
    ensures Latest(before[|before|..], p) == 0
  {
    var tail := before[since..];
    assert (before + [op])[since..] == tail + [op] && (tail + [op])[..|tail|] == tail;
  }

  /** The pair is stored after the first `k` calls. */
  predicate StoredAfter(s: State, ops: seq<Op>, p: Pair, k: nat)
    requires WellFormed(s)
  {
    k <= |ops| && p in Run(s, ops[..k]).entries
  }

  lemma StoredEarlier(s: State, before: seq<Op>, op: Op, p: Pair, k: nat)
    requires WellFormed(s)
    ensures k <= |before| ==> StoredAfter(s, before + [op], p, k) == StoredAfter(s, before, p, k)
    ensures k == |before| ==> StoredAfter(s, before, p, k) == (p in Run(s, before).entries)
  {
    hide Run;
    if k <= |before| { assert (before + [op])[..k] == before[..k]; }
    assert before[..|before|] == before;
  }

  /** A stored deadline is the latest requested since the pair was last absent. */
  lemma {:induction false} DeadlineIsLatestSinceInsertion(s: State, ops: seq<Op>, p: Pair) returns (since: nat)
    requires WellFormed(s) && p !in s.entries && p in Run(s, ops).entries
    ensures since < |ops| && !StoredAfter(s, ops, p, since)
    ensures forall k: nat :: since < k <= |ops| ==> StoredAfter(s, ops, p, k)
    ensures Run(s, ops).entries[p].deadline == Latest(ops[since..], p)
    decreases |ops|
  {
    NoOps(s);
    hide Run, Apply, Latest, StoredAfter, WellFormed;
    var n := |ops| - 1;
    var before, op := ops[..n], ops[n];
    assert ops == before + [op];
    RunSnoc(s, before, op);
    ApplyDeadline(Run(s, before), op, p);
    if p in Run(s, before).entries {
      since := DeadlineIsLatestSinceInsertion(s, before, p);
    } else {
      since := n;
    }
    LatestSnoc(before, op, p, since);
    StoredEarlier(s, before, op, p, since);
    StoredEarlier(s, before, op, p, n);
    StoredEarlier(s, ops, op, p, |ops|);
    forall k: nat | since < k <= |ops| ensures StoredAfter(s, ops, p, k) {
      StoredEarlier(s, before, op, p, k);
    }
  }

  lemma NoOps(s: State)
    requires WellFormed(s)
    ensures Run(s, []) == s
  {
  }

  function Ticks(ops: seq<Op>): nat {
    if ops == [] then 0 else (if ops[0].Tick? then 1 else 0) + Ticks(ops[1..])
  }

  /** Heartbeats come at least one interval apart, the first not before `ready`. */
  predicate Spaced(ops: seq<Op>, ready: nat, interval: nat) {
    ops == [] ||
    if ops[0].Tick? then ready <= ops[0].now && Spaced(ops[1..], ops[0].now + interval, interval)
    else Spaced(ops[1..], ready, interval)
  }

  /** No operation extends the stored deadline of `p`. */
  predicate NotExtended(ops: seq<Op>, p: Pair, deadline: nat) {
    forall op :: op in ops && op.Set? && op.pair == p ==> op.now + op.time <= deadline
  }

  lemma Wrap(x: nat, length: nat)
    requires x < 2 * length
    ensures x % length == if x < length then x else x - length
  {
    if x >= length {
      assert x == 1 * length + (x - length);
      assert x / length == 1;
    }
  }

  /** The slot `r` heartbeats ahead of `index`. */
  function Ahead(index: nat, r: nat, length: nat): nat
    requires length > 0
  {
    (index + r) % length
  }

  function Times(r: nat, interval: nat): nat { r * interval }

  lemma NextSlot(index: nat, r: nat, length: nat)
    requires index < length && 0 < r < length
    ensures Ahead(index, r, length) == Ahead((index + 1) % length, r - 1, length)
    ensures Ahead(index, r, length) != index
  {
    Wrap(index + r, length);
    Wrap(index + 1, length);
    Wrap((index + 1) % length + (r - 1), length);
  }

  lemma TimesStep(r: nat, interval: nat)
    requires r > 0
    ensures Times(r, interval) == Times(r - 1, interval) + interval
  {
    assert r * interval == (r - 1) * interval + interval;
  }

  lemma ThisSlot(index: nat, length: nat, interval: nat)
    requires index < length
    ensures Ahead(index, 0, length) == index && Times(0, interval) == 0
  {
    Wrap(index, length);
  }

  /**
   * An entry `r` slots ahead of the wheel is untouched by `r` heartbeats and, if expired by then, dropped by the
   * next.
   */
  lemma {:induction false} LeavesAtItsSlot(s: State, ops: seq<Op>, p: Pair, r: nat, ready: nat)
    requires WellFormed(s) && p in s.entries && r < s.length && s.entries[p].slot == Ahead(s.index, r, s.length)
    requires Spaced(ops, ready, s.interval) && NotExtended(ops, p, s.entries[p].deadline)
    requires Expired(s, s.entries[p], ready + Times(r, s.interval))
    ensures Ticks(ops) <= r ==> p in Run(s, ops).entries && Run(s, ops).entries[p] == s.entries[p]
    ensures Ticks(ops) == r + 1 && ops[|ops| - 1].Tick? ==> p !in Run(s, ops).entries
    decreases |ops|
  {
    if ops != [] {
      assert ops[0] in ops;
      if ops[0].Set? {
        SetKeeps(s, ops[0], p);
        hide Expired, Ahead, Times, Update;
        LeavesAtItsSlot(Apply(s, ops[0]), ops[1..], p, r, ready);
      } else if r > 0 {
        NextSlot(s.index, r, s.length);
        TimesStep(r, s.interval);
        TickKeeps(s, ops[0], p, r, ready);
        hide Expired, Ahead, Times, Beat;
        LeavesAtItsSlot(Apply(s, ops[0]), ops[1..], p, r - 1, ops[0].now + s.interval);
      } else {
        ThisSlot(s.index, s.length, s.interval);
        TicksOfTail(ops);
      }
    }
  }

  lemma SetKeeps(s: State, op: Op, p: Pair)
    requires WellFormed(s) && p in s.entries && op.Set?
    requires op.pair == p ==> op.now + op.time <= s.entries[p].deadline
    ensures var t := Apply(s, op); t.index == s.index && p in t.entries && t.entries[p] == s.entries[p]
    ensures forall now :: Expired(Apply(s, op), s.entries[p], now) == Expired(s, s.entries[p], now)
  {
  }

  lemma TickKeeps(s: State, op: Op, p: Pair, r: nat, ready: nat)
    requires WellFormed(s) && p in s.entries && op.Tick? && s.entries[p].slot != s.index && ready <= op.now
    requires 0 < r && Times(r, s.interval) == Times(r - 1, s.interval) + s.interval
    requires Expired(s, s.entries[p], ready + Times(r, s.interval))
    ensures var t := Apply(s, op); t.index == (s.index + 1) % s.length && p in t.entries && t.entries[p] == s.entries[p]
    ensures Expired(Apply(s, op), s.entries[p], op.now + s.interval + Times(r - 1, s.interval))
  {
    hide Times;
  }

  lemma {:induction false} TicksOfTail(ops: seq<Op>)
    requires ops != []
    ensures ops[|ops| - 1].Tick? && |ops| > 1 ==> Ticks(ops[1..]) > 0
  {
    if |ops| > 2 { TicksOfTail(ops[1..]); }
  }

  /**
   * With heartbeats at least an interval apart, a backoff no longer than `prune_backoff` that is stored now and not
   * extended is kept by the first ceil(time/interval) + slack heartbeats and dropped by the next one.
   */
  lemma DroppedAtExactHeartbeat(s: State, pruneBackoff: nat, p: Pair, now: nat, time: nat, ops: seq<Op>)
    requires WellFormed(s) && s.length == Heartbeats(pruneBackoff, s.interval) + s.slack + 1 && time <= pruneBackoff
    requires p in s.entries ==> s.entries[p].deadline < now + time
    requires Spaced(ops, now, s.interval) && NotExtended(ops, p, now + time)
    ensures var last := Heartbeats(time, s.interval) + s.slack;
            && (Ticks(ops) <= last ==> p in Run(Update(s, p, now, time), ops).entries)
            && (Ticks(ops) == last + 1 && ops[|ops| - 1].Tick? ==> p !in Run(Update(s, p, now, time), ops).entries)
  {
    var n := Heartbeats(time, s.interval);
    HeartbeatsMonotone(time, pruneBackoff, s.interval);
    assert WellFormed(Apply(s, Set(p, now, time)));
    assert Times(n + s.slack, s.interval) == n * s.interval + s.interval * s.slack;
    hide Heartbeats, Run, Ticks, Spaced;
    LeavesAtItsSlot(Update(s, p, now, time), ops, p, n + s.slack, now);
  }

  lemma Product(x: nat, y: nat, interval: nat)
    requires x >= y
    ensures x * interval >= y * interval
  {
  }

  lemma HeartbeatsMonotone(a: nat, b: nat, interval: nat)
    requires interval > 0 && a <= b
    ensures Heartbeats(a, interval) <= Heartbeats(b, interval)
  {
    var x, y := Heartbeats(a, interval), Heartbeats(b, interval);
    if x > y {
      Product(x - 1, y, interval);
      TimesStep(x, interval);
    }
  }

  /** Whatever its length, a backoff that is over and not extended is gone after one more turn of the wheel. */
  lemma GoneWithinOneTurn(s: State, ops: seq<Op>, p: Pair, ready: nat) returns (r: nat)
    requires WellFormed(s) && p in s.entries && Expired(s, s.entries[p], ready)
    requires Spaced(ops, ready, s.interval) && NotExtended(ops, p, s.entries[p].deadline)
    ensures r < s.length
    ensures Ticks(ops) == r + 1 && ops[|ops| - 1].Tick? ==> p !in Run(s, ops).entries
  {
    var slot := s.entries[p].slot;
    r := if slot >= s.index then slot - s.index else slot + s.length - s.index;
    Wrap(s.index + r, s.length);
    LeavesAtItsSlot(s, ops, p, r, ready);
  }

  /**
   * The same from a new storage, after any calls before: the wheel is as long as its longest backoff needs, so a
   * backoff of at most `pruneBackoff` is dropped right at its heartbeat, and any other within that many of its end.
   */
  lemma DroppedOnTime(pruneBackoff: nat, interval: nat, slack: nat, before: seq<Op>, p: Pair, now: nat, time: nat,
                      ops: seq<Op>)
    requires interval > 0 && time <= pruneBackoff
    requires var s := Run(New(pruneBackoff, interval, slack), before);
             p in s.entries ==> s.entries[p].deadline < now + time
    requires Spaced(ops, now, interval) && NotExtended(ops, p, now + time)
    ensures var s := Run(New(pruneBackoff, interval, slack), before);
            var last := Heartbeats(time, interval) + slack;
            && (Ticks(ops) <= last ==> p in Run(Update(s, p, now, time), ops).entries)
            && (Ticks(ops) == last + 1 && ops[|ops| - 1].Tick? ==> p !in Run(Update(s, p, now, time), ops).entries)
  {
    var s := Run(New(pruneBackoff, interval, slack), before);
    DroppedAtExactHeartbeat(s, pruneBackoff, p, now, time, ops);
  }

  lemma GoneOneTurnLater(pruneBackoff: nat, interval: nat, slack: nat, before: seq<Op>, ops: seq<Op>, p: Pair,
                         ready: nat) returns (r: nat)
    requires interval > 0
    requires var s := Run(New(pruneBackoff, interval, slack), before);
             p in s.entries && Expired(s, s.entries[p], ready) && NotExtended(ops, p, s.entries[p].deadline)
    requires Spaced(ops, ready, interval)
    ensures r <= Heartbeats(pruneBackoff, interval) + slack
    ensures Ticks(ops) == r + 1 && ops[|ops| - 1].Tick? ==>
              p !in Run(Run(New(pruneBackoff, interval, slack), before), ops).entries
  {
    r := GoneWithinOneTurn(Run(New(pruneBackoff, interval, slack), before), ops, p, ready);
  }
}
