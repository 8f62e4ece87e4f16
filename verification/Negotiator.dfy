/**
 * The dialer and the listener of a negotiation, each as an automaton fed with messages and as the loop that runs
 * it.
 */
module Negotiator {
  import opened Bytes
  import opened MultistreamProtocol
  import opened LengthDelimited

  datatype NegotiationError = Broken(error: ProtocolError) | Failed(rejected: seq<Name>)

  type Outcome = Result<Name, NegotiationError>

  function Wire(m: Message): (s: seq<Byte>) {
    Frame(Encode(m))
  }

  /** `MessageIO::recv_message` on a stream that starts with `s`. */
  function ReceiveMessage(s: seq<Byte>): (r: (Result<Message, ProtocolError>, seq<Byte>))
    ensures r.0.Ok? ==> |r.1| < |s|
  {
    var r := Receive(s);
    (if r.frame.Err? then Err(Io(r.frame.error)) else Decode(r.frame.value), r.rest)
  }

  /** `new_with_protocols` drops invalid names and keeps the order of the others. */
  function NewWithProtocols(candidates: seq<seq<Byte>>): (names: seq<Name>)
    ensures forall n :: n in names <==> n in candidates && IsName(n)
    ensures (forall n :: n in candidates ==> IsName(n)) ==> names == candidates
  {
    if candidates == [] then []
    else
      var later := NewWithProtocols(candidates[1..]);
      if TryFrom(candidates[0]).Ok? then [TryFrom(candidates[0]).value] + later else later
  }

  lemma NewCons(c: seq<Byte>, later: seq<seq<Byte>>)
    ensures NewWithProtocols([c] + later) == (if IsName(c) then [c] else []) + NewWithProtocols(later)
  {
    assert ([c] + later)[1..] == later;
  }

  lemma Regroup<T>(x: seq<T>, y: seq<T>, z: seq<T>)
    ensures x + y + z == x + (y + z)
  {
  }

  lemma {:induction false} NewAppend(a: seq<seq<Byte>>, b: seq<seq<Byte>>)
    ensures NewWithProtocols(a + b) == NewWithProtocols(a) + NewWithProtocols(b)
  {
    if a == [] {
      assert a + b == b;
    } else {
      var first, rest := a[0], a[1..];
      NewAppend(rest, b);
      NewCons(first, rest);
      NewCons(first, rest + b);
      assert a == [first] + rest;
      Regroup([first], rest, b);
      var head: seq<Name> := if IsName(first) then [first] else [];
      Regroup(head, NewWithProtocols(rest), NewWithProtocols(b));
    }
  }

  /** Wherever a candidate stands, exactly it is dropped or kept, in its place. */
  lemma KeptInPlace(before: seq<seq<Byte>>, c: seq<Byte>, after: seq<seq<Byte>>)
    ensures NewWithProtocols(before + [c] + after) ==
            NewWithProtocols(before) + (if IsName(c) then [c] else []) + NewWithProtocols(after)
  {
    NewAppend(before + [c], after);
    NewAppend(before, [c]);
    NewCons(c, []);
    assert [c] + [] == [c];
  }

  datatype Dialer = DialerHeader | DialerReply(i: nat) | DialerDone(outcome: Outcome)

  datatype Listener = ListenerHeader | ListenerServing | ListenerDone(outcome: Outcome)

  predicate DialerOk(names: seq<Name>, d: Dialer) {
    d.DialerReply? ==> d.i < |names|
  }

  function Propose(names: seq<Name>, i: nat): (r: (Dialer, seq<Byte>))
    requires i <= |names|
    ensures DialerOk(names, r.0)
  {
    if i < |names| then (DialerReply(i), Wire(Protocol(names[i]))) else (DialerDone(Err(Failed(names))), [])
  }

  /** How the dialer reacts to what it receives: its next state and what it sends. */
  function DialerOn(names: seq<Name>, d: Dialer, m: Result<Message, ProtocolError>): (r: (Dialer, seq<Byte>))
    requires !d.DialerDone? && DialerOk(names, d)
    ensures m.Err? ==> r.0.DialerDone?
    ensures DialerOk(names, r.0)
  {
    if m.Err? then (DialerDone(Err(Broken(m.error))), [])
    else if d.DialerHeader? then
      if m.value == Header then Propose(names, 0) else (DialerDone(Err(Broken(InvalidMessage))), [])
    else if m.value == Protocol(names[d.i]) then (DialerDone(Ok(names[d.i])), [])
    else if m.value == NotAvailable then Propose(names, d.i + 1)
    else (DialerDone(Err(Broken(InvalidMessage))), [])
  }

  function ListenerOn(names: seq<Name>, l: Listener, m: Result<Message, ProtocolError>): (r: (Listener, seq<Byte>))
    requires !l.ListenerDone?
    ensures m.Err? ==> r.0.ListenerDone?
    ensures !r.0.ListenerHeader?
  {
    if m.Err? then (ListenerDone(Err(Broken(m.error))), [])
    else if l.ListenerHeader? then
      if m.value == Header then (ListenerServing, Wire(Header)) else (ListenerDone(Err(Broken(InvalidMessage))), [])
    else
      match m.value
      case ListProtocols =>
        if |Encode(Protocols(names))| <= MAX_FRAME_SIZE then (ListenerServing, Wire(Protocols(names)))
        else (ListenerDone(Err(Broken(Io(FrameTooLong)))), [])
      case Protocol(p) =>
        if p in names then (ListenerDone(Ok(p)), Wire(Protocol(p))) else (ListenerServing, Wire(NotAvailable))
      case _ => (ListenerDone(Err(Broken(InvalidMessage))), [])
  }

  /** A finished run over a whole incoming stream: its result, the bytes it sent, the bytes it left unread. */
  datatype Ran = Ran(outcome: Outcome, sent: seq<Byte>, rest: seq<Byte>)

  function After(sent: seq<Byte>, r: Ran): Ran {
    r.(sent := sent + r.sent)
  }

  function DialerRun(names: seq<Name>, d: Dialer, s: seq<Byte>): Ran
    requires DialerOk(names, d)
    decreases |s|, !d.DialerDone?
  {
    if d.DialerDone? then Ran(d.outcome, [], s)
    else
      var (m, rest) := ReceiveMessage(s);
      var (next, sent) := DialerOn(names, d, m);
      if next.DialerDone? then Ran(next.outcome, sent, rest) else After(sent, DialerRun(names, next, rest))
  }

  function ListenerRun(names: seq<Name>, l: Listener, s: seq<Byte>): Ran
    decreases |s|, !l.ListenerDone?
  {
    if l.ListenerDone? then Ran(l.outcome, [], s)
    else
      var (m, rest) := ReceiveMessage(s);
      var (next, sent) := ListenerOn(names, l, m);
      if next.ListenerDone? then Ran(next.outcome, sent, rest) else After(sent, ListenerRun(names, next, rest))
  }

  /** One receipt of the dialer, and the rest of its run. */
  lemma DialerUnfolds(names: seq<Name>, d: Dialer, s: seq<Byte>)
    requires DialerOk(names, d) && !d.DialerDone?
    ensures var (m, rest) := ReceiveMessage(s);
            var (next, sent) := DialerOn(names, d, m);
            DialerRun(names, d, s) == After(sent, DialerRun(names, next, rest))
  {
    hide ReceiveMessage, DialerOn;
    var (m, rest) := ReceiveMessage(s);
    var sent := DialerOn(names, d, m).1;
    assert sent + [] == sent;
  }

  lemma ListenerUnfolds(names: seq<Name>, l: Listener, s: seq<Byte>)
    requires !l.ListenerDone?
    ensures var (m, rest) := ReceiveMessage(s);
            var (next, sent) := ListenerOn(names, l, m);
            ListenerRun(names, l, s) == After(sent, ListenerRun(names, next, rest))
  {
    hide ReceiveMessage, ListenerOn;
    var (m, rest) := ReceiveMessage(s);
    var sent := ListenerOn(names, l, m).1;
    assert sent + [] == sent;
  }

  lemma Ended(names: seq<Name>, outcome: Outcome, s: seq<Byte>)
    ensures DialerRun(names, DialerDone(outcome), s) == Ran(outcome, [], s)
    ensures ListenerRun(names, ListenerDone(outcome), s) == Ran(outcome, [], s)
  {
  }

  /** `later` is what is left of `run` for a loop that began with `before` sent and has sent `outgoing` so far. */
  predicate Leaves(run: Ran, before: seq<Byte>, outgoing: seq<Byte>, later: Ran) {
    run.outcome == later.outcome && run.rest == later.rest && before + run.sent == outgoing + later.sent
  }

  lemma Sends(run: Ran, before: seq<Byte>, outgoing: seq<Byte>, sent: seq<Byte>, later: Ran)
    requires Leaves(run, before, outgoing, After(sent, later))
    ensures Leaves(run, before, outgoing + sent, later)
  {
    Regroup(outgoing, sent, later.sent);
  }

  lemma AllSent(run: Ran, before: seq<Byte>, outgoing: seq<Byte>, outcome: Outcome, rest: seq<Byte>)
    requires Leaves(run, before, outgoing, Ran(outcome, [], rest))
    ensures outcome == run.outcome && rest == run.rest && outgoing == before + run.sent
  {
    assert outgoing + [] == outgoing;
  }

  lemma ShortMessage(m: Message)
    ensures !m.Protocols? ==> |Encode(m)| <= MAX_FRAME_SIZE
  {
  }

  method Recv(io: LengthDelimited) returns (m: Result<Message, ProtocolError>)
    modifies io`incoming, io`readBuffer
    ensures (m, io.incoming) == ReceiveMessage(old(io.incoming))
  {
    var frame := io.RecvMessage();
    if frame.Err? { return Err(Io(frame.error)); }
    m := DecodeMessage(frame.value);
  }

  method Send(io: LengthDelimited, m: Message) returns (r: Result<(), ProtocolError>)
    modifies io`outgoing, io`writeBuffer
    ensures |Encode(m)| <= MAX_FRAME_SIZE ==> r == Ok(()) && io.outgoing == old(io.outgoing) + Wire(m)
    ensures |Encode(m)| > MAX_FRAME_SIZE ==> r == Err(Io(FrameTooLong)) && io.outgoing == old(io.outgoing)
  {
    var buf := EncodeInto(m, []);
    assert buf == Encode(m);
    var sent := io.SendMessage(buf);
    r := if sent.Ok? then Ok(()) else Err(Io(sent.error));
  }

  /** `select_one`: offers the names in order until one is confirmed. */
  method SelectOne(names: seq<Name>, io: LengthDelimited) returns (outcome: Outcome)
    modifies io
    ensures var run := DialerRun(names, DialerHeader, old(io.incoming));
            outcome == run.outcome && io.incoming == run.rest
            && io.outgoing == old(io.outgoing) + Wire(Header) + run.sent
  {
    hide ReceiveMessage, Wire, Encode, DialerRun, Leaves, After;
    ghost var run := DialerRun(names, DialerHeader, io.incoming);
    ShortMessage(Header);
    var _ := Send(io, Header);
    ghost var before := io.outgoing;
    DialerUnfolds(names, DialerHeader, io.incoming);
    LeavesItself(run, before);
    var msg := Recv(io);
    if msg.Err? || msg.value != Header {
      outcome := Err(Broken(if msg.Err? then msg.error else InvalidMessage));
      DialerStops(names, run, before, io.outgoing, [], outcome, io.incoming);
      return;
    }
    var cause: seq<Name> := [];
    for i := 0 to |names|
      invariant cause == names[..i]
      invariant var (next, sent) := Propose(names, i);
                Leaves(run, before, io.outgoing, After(sent, DialerRun(names, next, io.incoming)))
    {
      var offer := Protocol(names[i]);
      ShortMessage(offer);
      Sends(run, before, io.outgoing, Wire(offer), DialerRun(names, DialerReply(i), io.incoming));
      var _ := Send(io, offer);
      DialerUnfolds(names, DialerReply(i), io.incoming);
      msg := Recv(io);
      if msg.Err? || msg.value != NotAvailable {
        outcome := if msg.Err? then Err(Broken(msg.error))
                   else if msg.value == offer then Ok(names[i]) else Err(Broken(InvalidMessage));
        DialerStops(names, run, before, io.outgoing, [], outcome, io.incoming);
        return;
      }
      assert names[..i + 1] == names[..i] + [names[i]];
      cause := cause + [names[i]];
    }
    assert cause == names;
    outcome := Err(Failed(cause));
    DialerStops(names, run, before, io.outgoing, [], outcome, io.incoming);
  }

  lemma LeavesItself(run: Ran, before: seq<Byte>)
    ensures Leaves(run, before, before, run)
  {
  }

  lemma DialerStops(names: seq<Name>, run: Ran, before: seq<Byte>, outgoing: seq<Byte>, sent: seq<Byte>,
                    outcome: Outcome, rest: seq<Byte>)
    requires Leaves(run, before, outgoing, After(sent, DialerRun(names, DialerDone(outcome), rest)))
    ensures outcome == run.outcome && rest == run.rest && outgoing + sent == before + run.sent
  {
    hide DialerRun, Leaves;
    Ended(names, outcome, rest);
    Sends(run, before, outgoing, sent, DialerRun(names, DialerDone(outcome), rest));
    AllSent(run, before, outgoing + sent, outcome, rest);
  }

  lemma ListenerStops(names: seq<Name>, run: Ran, before: seq<Byte>, outgoing: seq<Byte>, sent: seq<Byte>,
                      outcome: Outcome, rest: seq<Byte>)
    requires Leaves(run, before, outgoing, After(sent, ListenerRun(names, ListenerDone(outcome), rest)))
    ensures outcome == run.outcome && rest == run.rest && outgoing + sent == before + run.sent
  {
    hide ListenerRun, Leaves;
    Ended(names, outcome, rest);
    Sends(run, before, outgoing, sent, ListenerRun(names, ListenerDone(outcome), rest));
    AllSent(run, before, outgoing + sent, outcome, rest);
  }

  /** `negotiate`: answers offers until one is supported. */
  method Negotiate(names: seq<Name>, io: LengthDelimited) returns (outcome: Outcome)
    modifies io
    ensures var run := ListenerRun(names, ListenerHeader, old(io.incoming));
            outcome == run.outcome && io.incoming == run.rest && io.outgoing == old(io.outgoing) + run.sent
  {
    hide ReceiveMessage, Wire, Encode, ListenerRun, Leaves, After;
    ghost var run, before := ListenerRun(names, ListenerHeader, io.incoming), io.outgoing;
    ListenerUnfolds(names, ListenerHeader, io.incoming);
    LeavesItself(run, before);
    var msg := Recv(io);
    if msg.Err? || msg.value != Header {
      outcome := Err(Broken(if msg.Err? then msg.error else InvalidMessage));
      ListenerStops(names, run, before, io.outgoing, [], outcome, io.incoming);
      return;
    }
    ShortMessage(Header);
    Sends(run, before, io.outgoing, Wire(Header), ListenerRun(names, ListenerServing, io.incoming));
    var _ := Send(io, Header);
    while true
      invariant Leaves(run, before, io.outgoing, ListenerRun(names, ListenerServing, io.incoming))
      decreases |io.incoming|
    {
      ListenerUnfolds(names, ListenerServing, io.incoming);
      msg := Recv(io);
      if msg.Err? {
        outcome := Err(Broken(msg.error));
        ListenerStops(names, run, before, io.outgoing, [], outcome, io.incoming);
        return;
      }
      match msg.value
      case ListProtocols =>
        ghost var sofar := io.outgoing;
        var sent := Send(io, Protocols(names));
        if sent.Err? {
          outcome := Err(Broken(sent.error));
          ListenerStops(names, run, before, io.outgoing, [], outcome, io.incoming);
          return;
        }
        Sends(run, before, sofar, Wire(Protocols(names)), ListenerRun(names, ListenerServing, io.incoming));
      case Protocol(p) =>
        var found := p in names;
        var reply := if found then Protocol(p) else NotAvailable;
        ShortMessage(reply);
        if found {
          ListenerStops(names, run, before, io.outgoing, Wire(reply), Ok(p), io.incoming);
          var _ := Send(io, reply);
          return Ok(p);
        }
        Sends(run, before, io.outgoing, Wire(reply), ListenerRun(names, ListenerServing, io.incoming));
        var _ := Send(io, reply);
      case _ =>
        outcome := Err(Broken(InvalidMessage));
        ListenerStops(names, run, before, io.outgoing, [], outcome, io.incoming);
        return;
    }
  }
}
