/** Filtering the subscription requests of a peer: deduplication by topic, topic filters, and a bound on the topics. */
module SubscriptionFilter {
  import opened Bytes

  type Topic = string

  datatype Action = Subscribe | Unsubscribe

  datatype Subscription = Subscription(action: Action, topic: Topic)

  datatype Error = TooManyPerRequest | TooManyTopics

  // Deduplication

  type Kept = map<Topic, Subscription>

  /** One entry of the request: a repeated action is dropped, an opposite one takes the kept entry out. */
  function Toggle(kept: Kept, s: Subscription): Kept {
    if s.topic !in kept then kept[s.topic := s]
    else if kept[s.topic].action != s.action then kept - {s.topic}
    else kept
  }

  function Dedup(request: seq<Subscription>): Kept {
    if request == [] then map[]
    else Toggle(Dedup(request[..|request| - 1]), request[|request| - 1])
  }

  method Deduplicate(request: seq<Subscription>) returns (kept: Kept)
    ensures kept == Dedup(request)
  {
    kept := map[];
    for i := 0 to |request|
      invariant kept == Dedup(request[..i])
    {
      assert request[..i + 1][..i] == request[..i];
      var s := request[i];
      if s.topic in kept {
        if kept[s.topic].action != s.action {
          kept := kept - {s.topic};
        }
      } else {
        kept := kept[s.topic := s];
      }
    }
    assert request[..|request|] == request;
  }

  /** The actions that a request takes on one topic, in order. */
  function Actions(request: seq<Subscription>, t: Topic): seq<Action> {
    if request == [] then []
    else
      var s := request[|request| - 1];
      Actions(request[..|request| - 1], t) + (if s.topic == t then [s.action] else [])
  }

  /** The first index from `i` on of an action other than `a`. */
  function FirstOther(actions: seq<Action>, a: Action, i: nat): (k: nat)
    requires i <= |actions|
    ensures i <= k <= |actions| && (k < |actions| ==> actions[k] != a)
    ensures forall j :: i <= j < k ==> actions[j] == a
    decreases |actions| - i
  {
    if i == |actions| || actions[i] != a then i else FirstOther(actions, a, i + 1)
  }

  /** The actions are runs of one action, each ended by a single opposite one. */
  predicate CancelsOut(actions: seq<Action>)
    decreases |actions|
  {
    actions == []
    || var k := FirstOther(actions, actions[0], 0);
       k < |actions| && CancelsOut(actions[k + 1..])
  }

  /** What the toggling leaves of one topic's actions, begun with `kept`. */
  function Residue(kept: Option<Action>, actions: seq<Action>): Option<Action>
    decreases |actions|
  {
    if actions == [] then kept
    else
      var a := actions[0];
      Residue(match kept case None => Some(a) case Some(b) => if a == b then kept else None, actions[1..])
  }

  lemma {:induction false} ResidueSnoc(kept: Option<Action>, actions: seq<Action>, a: Action)
    ensures Residue(kept, actions + [a]) ==
            match Residue(kept, actions)
            case None => Some(a)
            case Some(b) => if a == b then Some(b) else None
    decreases |actions|
  {
    var all := actions + [a];
    if actions == [] {
      assert all[1..] == [] && all[0] == a;
    } else {
      assert all[1..] == actions[1..] + [a] && all[0] == actions[0];
      var x := actions[0];
      ResidueSnoc(match kept case None => Some(x) case Some(b) => if x == b then kept else None, actions[1..], a);
    }
  }

  lemma {:induction false} DedupIsResidue(request: seq<Subscription>, t: Topic)
    ensures t in Dedup(request) <==> Residue(None, Actions(request, t)).Some?
    ensures t in Dedup(request) ==> Dedup(request)[t] == Subscription(Residue(None, Actions(request, t)).value, t)
  {
    if request != [] {
      var n := |request| - 1;
      DedupIsResidue(request[..n], t);
      if request[n].topic == t {
        ResidueSnoc(None, Actions(request[..n], t), request[n].action);
      } else {
        assert Actions(request[..n], t) + [] == Actions(request[..n], t);
      }
    }
  }

  /** The residue is nothing, or the last action. */
  lemma {:induction false} ResidueIsLast(kept: Option<Action>, actions: seq<Action>)
    requires actions != []
    ensures Residue(kept, actions) == None || Residue(kept, actions) == Some(actions[|actions| - 1])
    decreases |actions|
  {
    if |actions| == 1 {
      assert actions[1..] == [];
    } else {
      var a := actions[0];
      ResidueIsLast(match kept case None => Some(a) case Some(b) => if a == b then kept else None, actions[1..]);
    }
  }

  lemma {:induction false} ResidueOfRun(actions: seq<Action>, a: Action, i: nat)
    requires i <= |actions|
    ensures var k := FirstOther(actions, a, i);
            Residue(Some(a), actions[i..]) == if k == |actions| then Some(a) else Residue(None, actions[k + 1..])
    decreases |actions| - i
  {
    if i < |actions| {
      assert actions[i..][1..] == actions[i + 1..];
      if actions[i] == a { ResidueOfRun(actions, a, i + 1); }
    }
  }

  /** Toggling forgets a topic exactly when its actions cancel out. */
  lemma {:induction false} ForgottenIffCancelsOut(actions: seq<Action>)
    ensures Residue(None, actions) == None <==> CancelsOut(actions)
    decreases |actions|
  {
    if actions != [] {
      var a := actions[0];
      ResidueOfRun(actions, a, 1);
      var k := FirstOther(actions, a, 0);
      assert k == FirstOther(actions, a, 1);
      if k < |actions| { ForgottenIffCancelsOut(actions[k + 1..]); }
    }
  }

  /** A request keeps one entry at most for a topic: its last action, unless its actions cancel out. */
  lemma KeptIsLastUnlessCancelled(request: seq<Subscription>, t: Topic)
    ensures var actions := Actions(request, t);
            && (t in Dedup(request) <==> !CancelsOut(actions))
            && (t in Dedup(request) ==>
                  actions != [] && Dedup(request)[t] == Subscription(actions[|actions| - 1], t))
  {
    var actions := Actions(request, t);
    DedupIsResidue(request, t);
    ForgottenIffCancelsOut(actions);
    if actions != [] { ResidueIsLast(None, actions); }
  }

  // Applying a request and applying what is kept

  function ApplyOne(current: set<Topic>, s: Subscription): set<Topic> {
    match s.action
    case Subscribe => current + {s.topic}
    case Unsubscribe => current - {s.topic}
  }

  /** The topics after taking every action of the request in order. */
  function ApplyRequest(current: set<Topic>, request: seq<Subscription>): set<Topic> {
    if request == [] then current
    else ApplyOne(ApplyRequest(current, request[..|request| - 1]), request[|request| - 1])
  }

  /** The topics after applying a set of entries, no two for one topic. */
  function ApplyKept(current: set<Topic>, kept: set<Subscription>): set<Topic> {
    current - (set s | s in kept && s.action.Unsubscribe? :: s.topic)
    + (set s | s in kept && s.action.Subscribe? :: s.topic)
  }

  lemma {:induction false} LastActionDecides(current: set<Topic>, request: seq<Subscription>, t: Topic)
    ensures var actions := Actions(request, t);
            t in ApplyRequest(current, request) <==>
            if actions == [] then t in current else actions[|actions| - 1] == Subscribe
  {
    if request != [] { LastActionDecides(current, request[..|request| - 1], t); }
  }

  function Entries(kept: Kept): set<Subscription> {
    set t | t in kept :: kept[t]
  }

  lemma {:induction false} KeyedByTopic(request: seq<Subscription>)
    ensures forall t :: t in Dedup(request) ==> Dedup(request)[t].topic == t
  {
    if request != [] { KeyedByTopic(request[..|request| - 1]); }
  }

  lemma KeptDecides(current: set<Topic>, request: seq<Subscription>, t: Topic)
    ensures t in ApplyKept(current, Entries(Dedup(request))) <==>
            if t in Dedup(request) then Dedup(request)[t].action == Subscribe else t in current
  {
    hide Dedup;
    KeyedByTopic(request);
    var kept := Dedup(request);
    if t in kept { assert kept[t] in Entries(kept); }
  }

  /** The topic is as it would be without the request's actions on it, and as its last action leaves it. */
  predicate Restored(current: set<Topic>, actions: seq<Action>, t: Topic) {
    actions == [] || (t in current <==> actions[|actions| - 1] == Subscribe)
  }

  ghost predicate CancelledAreRestored(current: set<Topic>, request: seq<Subscription>) {
    forall t :: CancelsOut(Actions(request, t)) ==> Restored(current, Actions(request, t), t)
  }

  /**
   * Applying what is kept does what the request does exactly when every topic whose actions cancel out
   * already had the status that its last action asks for.
   */
  lemma KeptMeansRequestIff(current: set<Topic>, request: seq<Subscription>)
    ensures ApplyKept(current, Entries(Dedup(request))) == ApplyRequest(current, request) <==>
            CancelledAreRestored(current, request)
  {
    hide ApplyKept, ApplyRequest, Dedup, Actions, CancelsOut;
    forall t ensures (t in ApplyKept(current, Entries(Dedup(request))) <==> t in ApplyRequest(current, request)) <==>
                     (CancelsOut(Actions(request, t)) ==> Restored(current, Actions(request, t), t))
    {
      KeptDecides(current, request, t);
      LastActionDecides(current, request, t);
      KeptIsLastUnlessCancelled(request, t);
    }
    var after, wanted := ApplyKept(current, Entries(Dedup(request))), ApplyRequest(current, request);
    if CancelledAreRestored(current, request) {
      assert after == wanted;
    } else {
      var t :| CancelsOut(Actions(request, t)) && !Restored(current, Actions(request, t), t);
      assert !(t in after <==> t in wanted);
      assert after != wanted;
    }
  }

  /** Every action of the request changes the status of its topic. */
  predicate NoneRedundant(current: set<Topic>, request: seq<Subscription>) {
    request != [] ==>
      var n := |request| - 1;
      && NoneRedundant(current, request[..n])
      && (request[n].action.Subscribe? <==> request[n].topic !in ApplyRequest(current, request[..n]))
  }

  /**
   * Without redundant actions, a topic is kept exactly when its status has changed, with the action that changed
   * it.
   */
  lemma {:induction false} KeptIffChanged(current: set<Topic>, request: seq<Subscription>, t: Topic)
    requires NoneRedundant(current, request)
    ensures t in Dedup(request) <==> (t in current) != (t in ApplyRequest(current, request))
    ensures t in Dedup(request) ==> (Dedup(request)[t].action.Subscribe? <==> t in ApplyRequest(current, request))
  {
    if request != [] { KeptIffChanged(current, request[..|request| - 1], t); }
  }

  lemma KeptMeansRequest(current: set<Topic>, request: seq<Subscription>)
    requires NoneRedundant(current, request)
    ensures ApplyKept(current, Entries(Dedup(request))) == ApplyRequest(current, request)
  {
    hide ApplyKept, ApplyRequest, Dedup, NoneRedundant;
    forall t ensures t in ApplyKept(current, Entries(Dedup(request))) <==> t in ApplyRequest(current, request) {
      KeptDecides(current, request, t);
      KeptIffChanged(current, request, t);
    }
  }

  /** A subscribed peer repeats its subscription and then unsubscribes: nothing is kept, and the topic stays. */
  lemma RedundantRequestIsLost()
    ensures var request := [Subscription(Subscribe, "t"), Subscription(Unsubscribe, "t")];
            && Dedup(request) == map[]
            && ApplyRequest({"t"}, request) == {}
            && ApplyKept({"t"}, Entries(Dedup(request))) == {"t"}
  {
    var a, b := Subscription(Subscribe, "t"), Subscription(Unsubscribe, "t");
    var request := [a, b];
    assert request[..1] == [a] && [a][..0] == [];
    assert Dedup([a]) == map["t" := a];
    assert Dedup(request) == map[];
    assert ApplyRequest({"t"}, [a]) == {"t"};
    assert Entries(map[]) == {};
  }

  // Filters

  datatype Filter =
    | AllowAll
    | Whitelist(topics: set<Topic>)
    | Callback(allows: Topic -> bool)
    | MaxCount(filter: Filter, maxTopics: nat, maxPerRequest: nat)
    | Combined(first: Filter, second: Filter)

  predicate CanSubscribe(f: Filter, t: Topic) {
    match f
    case AllowAll => true
    case Whitelist(topics) => t in topics
    case Callback(allows) => allows(t)
    case MaxCount(inner, _, _) => CanSubscribe(inner, t)
    case Combined(first, second) => CanSubscribe(first, t) && CanSubscribe(second, t)
  }

  /** The filter of a deduplicated set; only the combination replaces the default. */
  function FilterSet(f: Filter, entries: set<Subscription>): set<Subscription> {
    if f.Combined? then FilterSet(f.second, FilterSet(f.first, entries))
    else set s | s in entries && CanSubscribe(f, s.topic)
  }

  /** The subscriptions to topics not had yet. */
  function Gained(entries: set<Subscription>, current: set<Topic>): set<Subscription> {
    set s | s in entries && s.action.Subscribe? && s.topic !in current
  }

  /** The subscriptions given up. */
  function Dropped(entries: set<Subscription>, current: set<Topic>): set<Subscription> {
    set s | s in entries && s.action.Unsubscribe? && s.topic in current
  }

  function FilterRequest(f: Filter, request: seq<Subscription>, current: set<Topic>): Result<set<Subscription>, Error> {
    if f.MaxCount? then
      if |request| > f.maxPerRequest then Err(TooManyPerRequest)
      else
        match FilterRequest(f.filter, request, current)
        case Err(e) => Err(e)
        case Ok(entries) =>
          if |Gained(entries, current)| + |current| > f.maxTopics + |Dropped(entries, current)| then Err(TooManyTopics)
          else Ok(entries)
    else Ok(FilterSet(f, Entries(Dedup(request))))
  }

  method CountChanges(entries: set<Subscription>, current: set<Topic>) returns (newSubscribed: nat, unsubscribed: nat)
    ensures newSubscribed == |Gained(entries, current)| && unsubscribed == |Dropped(entries, current)|
  {
    newSubscribed, unsubscribed := 0, 0;
    var left := entries;
    ghost var done: set<Subscription> := {};
    while left != {}
      invariant done + left == entries && done !! left
      invariant newSubscribed == |Gained(done, current)| && unsubscribed == |Dropped(done, current)|
      decreases |left|
    {
      var s :| s in left;
      left := left - {s};
      GainedOneMore(done, s, current);
      done := done + {s};
      match s.action
      case Unsubscribe =>
        if s.topic in current { unsubscribed := unsubscribed + 1; }
      case Subscribe =>
        if s.topic !in current { newSubscribed := newSubscribed + 1; }
    }
    assert done == entries;
  }

  lemma GainedOneMore(done: set<Subscription>, s: Subscription, current: set<Topic>)
    requires s !in done
    ensures |Gained(done + {s}, current)| ==
            |Gained(done, current)| + (if s.action.Subscribe? && s.topic !in current then 1 else 0)
    ensures |Dropped(done + {s}, current)| ==
            |Dropped(done, current)| + (if s.action.Unsubscribe? && s.topic in current then 1 else 0)
  {
    if s.action.Subscribe? {
      assert Dropped(done + {s}, current) == Dropped(done, current);
      if s.topic !in current {
        assert Gained(done + {s}, current) == Gained(done, current) + {s};
      } else {
        assert Gained(done + {s}, current) == Gained(done, current);
      }
    } else {
      assert Gained(done + {s}, current) == Gained(done, current);
      if s.topic in current {
        assert Dropped(done + {s}, current) == Dropped(done, current) + {s};
      } else {
        assert Dropped(done + {s}, current) == Dropped(done, current);
      }
    }
  }

  method FilterIncomingSubscriptions(f: Filter, request: seq<Subscription>, current: set<Topic>)
    returns (r: Result<set<Subscription>, Error>)
    ensures r == FilterRequest(f, request, current)
    decreases f
  {
    if f.MaxCount? {
      if |request| > f.maxPerRequest { return Err(TooManyPerRequest); }
      r := FilterIncomingSubscriptions(f.filter, request, current);
      if r.Err? { return r; }
      var newSubscribed, unsubscribed := CountChanges(r.value, current);
      if newSubscribed + |current| > f.maxTopics + unsubscribed { return Err(TooManyTopics); }
      return r;
    }
    var kept := Deduplicate(request);
    return Ok(FilterSet(f, Entries(kept)));
  }

  lemma {:induction false} FilterSetIsCanSubscribe(f: Filter, entries: set<Subscription>)
    ensures FilterSet(f, entries) == set s | s in entries && CanSubscribe(f, s.topic)
    decreases f
  {
    if f.Combined? {
      FilterSetIsCanSubscribe(f.first, entries);
      FilterSetIsCanSubscribe(f.second, FilterSet(f.first, entries));
    }
  }

  /** What any filter, however nested, accepts of a request is what its topic test lets through of the kept entries. */
  lemma {:induction false} AcceptedEntries(f: Filter, request: seq<Subscription>, current: set<Topic>)
    requires FilterRequest(f, request, current).Ok?
    ensures FilterRequest(f, request, current).value == set s | s in Entries(Dedup(request)) && CanSubscribe(f, s.topic)
    decreases f
  {
    if f.MaxCount? {
      AcceptedEntries(f.filter, request, current);
    } else {
      FilterSetIsCanSubscribe(f, Entries(Dedup(request)));
    }
  }

  /** The plain filters accept, of the kept entries, all, those of listed topics, and those called for. */
  lemma PlainFiltersAccept(topics: set<Topic>, allows: Topic -> bool, request: seq<Subscription>, current: set<Topic>)
    ensures FilterRequest(AllowAll, request, current) == Ok(Entries(Dedup(request)))
    ensures FilterRequest(Whitelist(topics), request, current) ==
            Ok(set s | s in Entries(Dedup(request)) && s.topic in topics)
    ensures FilterRequest(Callback(allows), request, current) ==
            Ok(set s | s in Entries(Dedup(request)) && allows(s.topic))
  {
    hide Dedup, Entries;
    var kept := Entries(Dedup(request));
    assert FilterSet(AllowAll, kept) == kept;
    assert FilterSet(Whitelist(topics), kept) == set s | s in kept && s.topic in topics;
    assert FilterSet(Callback(allows), kept) == set s | s in kept && allows(s.topic);
  }

  /** A combination accepts what both of its parts let through. */
  lemma CombinedAcceptsBoth(f: Filter, g: Filter, request: seq<Subscription>, current: set<Topic>)
    ensures FilterRequest(Combined(f, g), request, current) ==
            Ok(FilterSet(f, Entries(Dedup(request))) * FilterSet(g, Entries(Dedup(request))))
  {
    hide Dedup, Entries;
    var kept := Entries(Dedup(request));
    FilterSetIsCanSubscribe(f, kept);
    FilterSetIsCanSubscribe(g, kept);
    FilterSetIsCanSubscribe(g, FilterSet(f, kept));
    assert FilterSet(Combined(f, g), kept) == FilterSet(f, kept) * FilterSet(g, kept);
  }

  ghost predicate OnePerTopic(entries: set<Subscription>) {
    forall s, t :: s in entries && t in entries && s.topic == t.topic ==> s == t
  }

  function Topics(entries: set<Subscription>): set<Topic> {
    set s | s in entries :: s.topic
  }

  lemma {:induction false} AsManyTopics(entries: set<Subscription>)
    requires OnePerTopic(entries)
    ensures |Topics(entries)| == |entries|
    decreases |entries|
  {
    if entries != {} {
      var s :| s in entries;
      AsManyTopics(entries - {s});
      assert Topics(entries) == Topics(entries - {s}) + {s.topic};
      assert s.topic !in Topics(entries - {s});
    }
  }

  lemma KeptOnePerTopic(request: seq<Subscription>, entries: set<Subscription>)
    requires entries <= Entries(Dedup(request))
    ensures OnePerTopic(entries)
  {
    hide Dedup;
    KeyedByTopic(request);
    forall s, t | s in entries && t in entries && s.topic == t.topic ensures s == t {
      assert s in Entries(Dedup(request)) && t in Entries(Dedup(request));
    }
  }

  /** The number of topics after applying a set with one entry a topic. */
  lemma TopicCount(current: set<Topic>, entries: set<Subscription>)
    requires OnePerTopic(entries)
    ensures |ApplyKept(current, entries)| + |Dropped(entries, current)| == |current| + |Gained(entries, current)|
  {
    var gained, dropped := Topics(Gained(entries, current)), Topics(Dropped(entries, current));
    AsManyTopics(Gained(entries, current));
    AsManyTopics(Dropped(entries, current));
    assert dropped <= current && gained !! current;
    assert ApplyKept(current, entries) == (current - dropped) + gained by {
      forall t ensures t in ApplyKept(current, entries) <==> t in (current - dropped) + gained {
        AppliedTopic(current, entries, t);
      }
    }
    assert |current - dropped| == |current| - |dropped|;
    assert |(current - dropped) + gained| == |current - dropped| + |gained|;
  }

  lemma AppliedTopic(current: set<Topic>, entries: set<Subscription>, t: Topic)
    requires OnePerTopic(entries)
    ensures t in ApplyKept(current, entries) <==>
            t in (current - Topics(Dropped(entries, current))) + Topics(Gained(entries, current))
  {
    if s :| s in entries && s.topic == t {
      if s.action.Subscribe? {
        assert t in current || s in Gained(entries, current);
      } else {
        assert t !in current || s in Dropped(entries, current);
      }
    }
  }

  /**
   * A bounded filter accepts a request exactly when the request is short enough, the inner filter accepts it and
   * the topics it would leave are no more than the bound; it then returns what the inner filter returns.
   */
  lemma MaxCountVerdict(f: Filter, maxTopics: nat, maxPerRequest: nat, request: seq<Subscription>, current: set<Topic>)
    ensures var inner := FilterRequest(f, request, current);
            var r := FilterRequest(MaxCount(f, maxTopics, maxPerRequest), request, current);
            && (r.Ok? <==> |request| <= maxPerRequest && inner.Ok? && |ApplyKept(current, inner.value)| <= maxTopics)
            && (r.Ok? ==> r == inner)
            && (|request| > maxPerRequest ==> r == Err(TooManyPerRequest))
            && (|request| <= maxPerRequest && inner.Err? ==> r == inner)
            && (|request| <= maxPerRequest && inner.Ok? && r.Err? ==> r == Err(TooManyTopics))
  {
    var inner := FilterRequest(f, request, current);
    if inner.Ok? {
      AcceptedEntries(f, request, current);
      KeptOnePerTopic(request, inner.value);
      TopicCount(current, inner.value);
    }
  }

  /** Inside a combination the bounds are not looked at: here one topic is let through against a bound of none. */
  lemma CombinedIgnoresBounds(f: Filter, g: Filter, maxTopics: nat, maxPerRequest: nat,
                              request: seq<Subscription>, current: set<Topic>)
    ensures FilterRequest(Combined(MaxCount(f, maxTopics, maxPerRequest), g), request, current)
            == FilterRequest(Combined(f, g), request, current)
    ensures FilterRequest(Combined(MaxCount(AllowAll, 0, maxPerRequest), AllowAll), [Subscription(Subscribe, "t")], {})
            == Ok({Subscription(Subscribe, "t")})
  {
    var all := Entries(Dedup(request));
    FilterSetIsCanSubscribe(f, all);
    assert FilterSet(MaxCount(f, maxTopics, maxPerRequest), all) == FilterSet(f, all);
    var a := Subscription(Subscribe, "t");
    assert [a][..0] == [] && Dedup([a]) == map["t" := a];
    var one: Kept := map["t" := a];
    assert Entries(one) == {a} by { assert "t" in one && one["t"] == a; }
    var both := Combined(MaxCount(AllowAll, 0, maxPerRequest), AllowAll);
    FilterSetIsCanSubscribe(both, {a});
    assert CanSubscribe(AllowAll, "t") && CanSubscribe(MaxCount(AllowAll, 0, maxPerRequest), "t");
    assert FilterSet(both, {a}) == {a};
  }
}
