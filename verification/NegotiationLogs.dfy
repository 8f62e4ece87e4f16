/**
 * The two sides of a networked run do what the loops do on whole streams: a side that has returned has the result,
 * the sent bytes and the unread bytes of its loop run on everything that was ever written to it.
 */
module NegotiationLogs {
  import opened Bytes
  import opened MultistreamProtocol
  import opened LengthDelimited
  import opened Negotiator
  import opened NegotiationRuns

  /** Everything the dialer has written. */
  function UpLog(s: Net): seq<Byte> { Wire(Header) + s.dialerSent + s.dialerData }

  /** Everything the listener has written. */
  function DownLog(s: Net): seq<Byte> { s.listenerSent + s.listenerData }

  /** However the log goes on, the dialer's loop on it is `sent` and then the dialer's run on what it has not read. */
  ghost predicate DialerFollows(names: seq<Name>, d: Dialer, log: seq<Byte>, sent: seq<Byte>, unread: seq<Byte>,
                                shut: bool)
    requires DialerOk(names, d)
  {
    forall x :: (shut ==> x == []) ==>
      DialerRun(names, DialerHeader, log + x) == After(sent, DialerRun(names, d, unread + x))
  }

  ghost predicate ListenerFollows(names: seq<Name>, l: Listener, log: seq<Byte>, sent: seq<Byte>, unread: seq<Byte>,
                                  shut: bool)
  {
    forall x :: (shut ==> x == []) ==>
      ListenerRun(names, ListenerHeader, log + x) == After(sent, ListenerRun(names, l, unread + x))
  }

  lemma LogGrows(names: seq<Name>, d: Dialer, log: seq<Byte>, sent: seq<Byte>, unread: seq<Byte>, b: seq<Byte>,
                 shut: bool)
    requires DialerOk(names, d) && DialerFollows(names, d, log, sent, unread, false)
    ensures DialerFollows(names, d, log + b, sent, unread + b, shut)
  {
    hide DialerRun;
    forall x ensures DialerRun(names, DialerHeader, log + b + x) == After(sent, DialerRun(names, d, unread + b + x)) {
      Regroup(log, b, x);
      Regroup(unread, b, x);
      assert DialerRun(names, DialerHeader, log + (b + x)) == After(sent, DialerRun(names, d, unread + (b + x)));
    }
  }

  lemma ListenerLogGrows(names: seq<Name>, l: Listener, log: seq<Byte>, sent: seq<Byte>, unread: seq<Byte>,
                         b: seq<Byte>, shut: bool)
    requires ListenerFollows(names, l, log, sent, unread, false)
    ensures ListenerFollows(names, l, log + b, sent, unread + b, shut)
  {
    hide ListenerRun;
    forall x
      ensures ListenerRun(names, ListenerHeader, log + b + x) == After(sent, ListenerRun(names, l, unread + b + x))
    {
      Regroup(log, b, x);
      Regroup(unread, b, x);
      assert ListenerRun(names, ListenerHeader, log + (b + x)) == After(sent, ListenerRun(names, l, unread + (b + x)));
    }
  }

  /** A completed read takes the same message whatever has not arrived yet. */
  lemma ReadsThrough(p: Pipe, x: seq<Byte>)
    requires p.Readable() && (p.closed ==> x == [])
    ensures ReceiveMessage(p.Content() + x) ==
            (ReceiveMessage(p.ready).0, p.(ready := ReceiveMessage(p.ready).1).Content() + x)
  {
    hide Receive, Decode;
    Regroup(p.ready, p.flying, x);
    if Receive(p.ready).frame != Err(UnexpectedEof) {
      ReceiveExtends(p.ready, p.flying + x);
      Regroup(Receive(p.ready).rest, p.flying, x);
    } else {
      assert p.Content() + x == p.ready;
      assert Receive(p.ready).rest + [] + [] == Receive(p.ready).rest;
    }
  }

  lemma DialerReads(names: seq<Name>, d: Dialer, log: seq<Byte>, sent: seq<Byte>, p: Pipe)
    requires DialerOk(names, d) && !d.DialerDone? && p.Readable()
    requires DialerFollows(names, d, log, sent, p.Content(), p.closed)
    ensures var (m, rest) := ReceiveMessage(p.ready);
            var (next, b) := DialerOn(names, d, m);
            DialerFollows(names, next, log, sent + b, p.(ready := rest).Content(), p.closed)
  {
    hide DialerRun, ReceiveMessage, DialerOn, Pipe.Content, Pipe.Readable;
    var (m, rest) := ReceiveMessage(p.ready);
    var (next, b) := DialerOn(names, d, m);
    var left := p.(ready := rest).Content();
    forall x | p.closed ==> x == []
      ensures DialerRun(names, DialerHeader, log + x) == After(sent + b, DialerRun(names, next, left + x))
    {
      ReadsThrough(p, x);
      DialerUnfolds(names, d, p.Content() + x);
      Regroup(sent, b, DialerRun(names, next, left + x).sent);
    }
  }

  lemma ListenerReads(names: seq<Name>, l: Listener, log: seq<Byte>, sent: seq<Byte>, p: Pipe)
    requires !l.ListenerDone? && p.Readable()
    requires ListenerFollows(names, l, log, sent, p.Content(), p.closed)
    ensures var (m, rest) := ReceiveMessage(p.ready);
            var (next, b) := ListenerOn(names, l, m);
            ListenerFollows(names, next, log, sent + b, p.(ready := rest).Content(), p.closed)
  {
    hide ListenerRun, ReceiveMessage, ListenerOn, Pipe.Content, Pipe.Readable;
    var (m, rest) := ReceiveMessage(p.ready);
    var (next, b) := ListenerOn(names, l, m);
    var left := p.(ready := rest).Content();
    forall x | p.closed ==> x == []
      ensures ListenerRun(names, ListenerHeader, log + x) == After(sent + b, ListenerRun(names, next, left + x))
    {
      ReadsThrough(p, x);
      ListenerUnfolds(names, l, p.Content() + x);
      Regroup(sent, b, ListenerRun(names, next, left + x).sent);
    }
  }

  /** A direction is closed only by a writer that has returned an error, and data follow only a returned name. */
  predicate Orderly(s: Net) {
    && (s.up.closed ==> s.dialer.DialerDone? && s.dialer.outcome.Err?)
    && (s.down.closed ==> s.listener.ListenerDone? && s.listener.outcome.Err?)
    && (s.dialerData == [] || (s.dialer.DialerDone? && s.dialer.outcome.Ok?))
    && (s.listenerData == [] || (s.listener.ListenerDone? && s.listener.outcome.Ok?))
  }

  lemma ReachedIsOrderly(ours: seq<Name>, theirs: seq<Name>, s: Net)
    requires Inv(ours, theirs, s)
    ensures Orderly(s) && DialerOk(ours, s.dialer)
  {
    hide Pivot, Wire;
  }

  ghost predicate Linked(ours: seq<Name>, theirs: seq<Name>, s: Net) {
    && DialerOk(ours, s.dialer)
    && DialerFollows(ours, s.dialer, DownLog(s), s.dialerSent, s.down.Content(), s.down.closed)
    && ListenerFollows(theirs, s.listener, UpLog(s), s.listenerSent, s.up.Content(), s.up.closed)
  }

  lemma DialerStaysLinked(ours: seq<Name>, theirs: seq<Name>, s: Net)
    requires DialerOk(ours, s.dialer) && Orderly(s) && Linked(ours, theirs, s) && Enabled(s, DialerReceives)
    ensures Linked(ours, theirs, Take(ours, theirs, s, DialerReceives))
  {
    hide DialerFollows, ListenerFollows, ReceiveMessage, DialerOn, Wire, Pipe.Content, Pipe.Readable;
    var (m, rest) := ReceiveMessage(s.down.ready);
    var (next, b) := DialerOn(ours, s.dialer, m);
    var t := Take(ours, theirs, s, DialerReceives);
    DialerReads(ours, s.dialer, DownLog(s), s.dialerSent, s.down);
    ListenerLogGrows(theirs, s.listener, UpLog(s), s.listenerSent, s.up.Content(), b, t.up.closed);
    Writes(s.up, b, next.DialerDone? && next.outcome.Err?);
    assert UpLog(t) == UpLog(s) + b;
  }

  lemma ListenerStaysLinked(ours: seq<Name>, theirs: seq<Name>, s: Net)
    requires DialerOk(ours, s.dialer) && Orderly(s) && Linked(ours, theirs, s) && Enabled(s, ListenerReceives)
    ensures Linked(ours, theirs, Take(ours, theirs, s, ListenerReceives))
  {
    hide DialerFollows, ListenerFollows, ReceiveMessage, ListenerOn, Wire, Pipe.Content, Pipe.Readable;
    var (m, rest) := ReceiveMessage(s.up.ready);
    var (next, b) := ListenerOn(theirs, s.listener, m);
    var t := Take(ours, theirs, s, ListenerReceives);
    ListenerReads(theirs, s.listener, UpLog(s), s.listenerSent, s.up);
    LogGrows(ours, s.dialer, DownLog(s), s.dialerSent, s.down.Content(), b, t.down.closed);
    Writes(s.down, b, next.ListenerDone? && next.outcome.Err?);
    assert DownLog(t) == DownLog(s) + b;
  }

  lemma StepLinks(ours: seq<Name>, theirs: seq<Name>, s: Net, step: Step)
    requires DialerOk(ours, s.dialer) && Orderly(s) && Linked(ours, theirs, s) && Enabled(s, step)
    ensures Linked(ours, theirs, Take(ours, theirs, s, step))
  {
    hide DialerFollows, ListenerFollows, ReceiveMessage, Wire, Pipe.Content, Pipe.Readable;
    match step
    case DeliverUp(n) => Delivers(s.up, n);
    case DeliverDown(n) => Delivers(s.down, n);
    case DialerReceives => DialerStaysLinked(ours, theirs, s);
    case ListenerReceives => ListenerStaysLinked(ours, theirs, s);
    case DialerWrites(data) =>
      Writes(s.up, data, false);
      Regroup(Wire(Header) + s.dialerSent, s.dialerData, data);
      ListenerLogGrows(theirs, s.listener, UpLog(s), s.listenerSent, s.up.Content(), data, s.up.closed);
    case ListenerWrites(data) =>
      Writes(s.down, data, false);
      Regroup(s.listenerSent, s.listenerData, data);
      LogGrows(ours, s.dialer, DownLog(s), s.dialerSent, s.down.Content(), data, s.down.closed);
  }

  lemma {:induction false} RunLinks(ours: seq<Name>, theirs: seq<Name>, s: Net, steps: seq<Step>)
    requires Inv(ours, theirs, s) && Executable(ours, theirs, s, steps) && Linked(ours, theirs, s)
    ensures Linked(ours, theirs, Final(ours, theirs, s, steps))
    decreases |steps|
  {
    hide Inv, Linked, Take, Enabled, Orderly;
    if steps != [] {
      ReachedIsOrderly(ours, theirs, s);
      StepLinks(ours, theirs, s, steps[0]);
      StepKeeps(ours, theirs, s, steps[0]);
      RunLinks(ours, theirs, Take(ours, theirs, s, steps[0]), steps[1..]);
    }
  }

  lemma InitLinks(ours: seq<Name>, theirs: seq<Name>)
    ensures Inv(ours, theirs, Init()) && Linked(ours, theirs, Init())
  {
    hide DialerRun, ListenerRun, Wire, Pivot;
    forall x ensures DialerRun(ours, DialerHeader, [] + x) == After([], DialerRun(ours, DialerHeader, [] + x)) {
    }
    assert Wire(Header) + [] + [] == [] + Wire(Header);
  }

  /**
   * In every run: a dialer that has returned has the outcome, the sent bytes and the unread bytes that `select_one`
   * has on the bytes written to it, and a listener those of `negotiate`.
   */
  lemma RunsAreTheLoops(ours: seq<Name>, theirs: seq<Name>, steps: seq<Step>)
    requires Executable(ours, theirs, Init(), steps)
    ensures var s := Final(ours, theirs, Init(), steps);
            && (s.dialer.DialerDone? ==>
                  DialerRun(ours, DialerHeader, DownLog(s)) == Ran(s.dialer.outcome, s.dialerSent, s.down.Content()))
            && (s.listener.ListenerDone? ==>
                  ListenerRun(theirs, ListenerHeader, UpLog(s)) ==
                  Ran(s.listener.outcome, s.listenerSent, s.up.Content()))
  {
    hide Executable, Final, Linked, DialerRun, ListenerRun, Wire;
    InitLinks(ours, theirs);
    RunLinks(ours, theirs, Init(), steps);
    LinkedEnds(ours, theirs, Final(ours, theirs, Init(), steps));
  }

  lemma LinkedEnds(ours: seq<Name>, theirs: seq<Name>, s: Net)
    requires Linked(ours, theirs, s)
    ensures s.dialer.DialerDone? ==>
              DialerRun(ours, DialerHeader, DownLog(s)) == Ran(s.dialer.outcome, s.dialerSent, s.down.Content())
    ensures s.listener.ListenerDone? ==>
              ListenerRun(theirs, ListenerHeader, UpLog(s)) == Ran(s.listener.outcome, s.listenerSent, s.up.Content())
  {
    hide UpLog, DownLog, Pipe.Content, DialerFollows, ListenerFollows;
    if s.dialer.DialerDone? {
      DialerEnds(ours, s.dialer.outcome, DownLog(s), s.dialerSent, s.down.Content(), s.down.closed);
    }
    if s.listener.ListenerDone? {
      ListenerEnds(theirs, s.listener.outcome, UpLog(s), s.listenerSent, s.up.Content(), s.up.closed);
    }
  }

  lemma DialerEnds(names: seq<Name>, o: Outcome, log: seq<Byte>, sent: seq<Byte>, unread: seq<Byte>, shut: bool)
    requires DialerFollows(names, DialerDone(o), log, sent, unread, shut)
    ensures DialerRun(names, DialerHeader, log) == Ran(o, sent, unread)
  {
    hide DialerRun;
    assert log + [] == log && unread + [] == unread && sent + [] == sent;
    assert DialerRun(names, DialerHeader, log + []) == After(sent, DialerRun(names, DialerDone(o), unread + []));
    Ended(names, o, unread);
  }

  lemma ListenerEnds(names: seq<Name>, o: Outcome, log: seq<Byte>, sent: seq<Byte>, unread: seq<Byte>, shut: bool)
    requires ListenerFollows(names, ListenerDone(o), log, sent, unread, shut)
    ensures ListenerRun(names, ListenerHeader, log) == Ran(o, sent, unread)
  {
    hide ListenerRun;
    assert log + [] == log && unread + [] == unread && sent + [] == sent;
    assert ListenerRun(names, ListenerHeader, log + []) ==
           After(sent, ListenerRun(names, ListenerDone(o), unread + []));
    Ended(names, o, unread);
  }

  /**
   * So the two loops keep the promise on their streams: with a shared name and offers that survive the wire, at the
   * end of any run both return the first shared name, each leaving unread exactly the data behind the negotiation.
   */
  lemma LoopsKeepThePromise(ours: seq<Name>, theirs: seq<Name>, steps: seq<Step>)
    requires Executable(ours, theirs, Init(), steps) && Quiescent(Final(ours, theirs, Init(), steps))
    requires OffersSurvive(ours, theirs) && FirstShared(ours, theirs) < |ours|
    ensures var s := Final(ours, theirs, Init(), steps);
            var name := ours[FirstShared(ours, theirs)];
            && DialerRun(ours, DialerHeader, DownLog(s)) == Ran(Ok(name), s.dialerSent, s.listenerData)
            && ListenerRun(theirs, ListenerHeader, UpLog(s)) == Ran(Ok(name), s.listenerSent, s.dialerData)
  {
    hide Executable, Final, DialerRun, ListenerRun, OffersSurvive, Pipe.Content;
    RunsAreTheLoops(ours, theirs, steps);
    EveryRunEndsAsPromised(ours, theirs, steps);
  }
}
