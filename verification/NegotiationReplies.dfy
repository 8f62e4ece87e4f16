/** What each side of a negotiation concludes from the messages it reads, for any incoming bytes. */
module NegotiationReplies {
  import opened Bytes
  import opened MultistreamProtocol
  import LengthDelimited
  import opened Negotiator

  /** What is left of a stream once exactly these messages have been read from it, if it starts with them. */
  function Reads(s: seq<Byte>, ms: seq<Message>): Option<seq<Byte>>
    decreases |ms|
  {
    if ms == [] then Some(s)
    else
      var (m, rest) := ReceiveMessage(s);
      if m == Ok(ms[0]) then Reads(rest, ms[1..]) else None
  }

  lemma ReadsCons(s: seq<Byte>, m: Message, ms: seq<Message>)
    ensures Reads(s, [m] + ms) ==
            if ReceiveMessage(s).0 == Ok(m) then Reads(ReceiveMessage(s).1, ms) else None
  {
    hide ReceiveMessage;
    assert ([m] + ms)[1..] == ms;
  }

  function Declined(n: nat): seq<Message> {
    seq(n, _ => NotAvailable)
  }

  /** The offers of `n` names from the `i`-th on. */
  function Offers(names: seq<Name>, i: nat, n: nat): seq<Byte>
    requires i + n <= |names|
    decreases n
  {
    if n == 0 then [] else Wire(Protocol(names[i])) + Offers(names, i + 1, n - 1)
  }

  /** From the `i`-th offer on, each is declined up to the `j`-th, which is confirmed. */
  function Confirmed(names: seq<Name>, i: nat, s: seq<Byte>, j: nat): Option<seq<Byte>>
    requires i <= j < |names|
  {
    Reads(s, Declined(j - i) + [Protocol(names[j])])
  }

  lemma ConfirmedStep(names: seq<Name>, i: nat, s: seq<Byte>, j: nat)
    requires i <= j < |names|
    ensures var (m, rest) := ReceiveMessage(s);
            Confirmed(names, i, s, j) ==
            if i == j then if m == Ok(Protocol(names[j])) then Some(rest) else None
            else if m == Ok(NotAvailable) then Confirmed(names, i + 1, rest, j) else None
  {
    hide ReceiveMessage, Reads;
    var last := [Protocol(names[j])];
    if i == j {
      assert Declined(0) + last == last + [];
      ReadsCons(s, last[0], []);
      assert Reads(ReceiveMessage(s).1, []) == Some(ReceiveMessage(s).1) by { NoneRead(ReceiveMessage(s).1); }
    } else {
      assert Declined(j - i) + last == [NotAvailable] + (Declined(j - i - 1) + last);
      ReadsCons(s, NotAvailable, Declined(j - i - 1) + last);
    }
  }

  lemma NoneRead(s: seq<Byte>)
    ensures Reads(s, []) == Some(s)
  {
  }

  lemma DeclinedStep(s: seq<Byte>, n: nat)
    requires n > 0
    ensures var (m, rest) := ReceiveMessage(s);
            Reads(s, Declined(n)) == if m == Ok(NotAvailable) then Reads(rest, Declined(n - 1)) else None
  {
    hide ReceiveMessage, Reads;
    assert Declined(n) == [NotAvailable] + Declined(n - 1);
    ReadsCons(s, NotAvailable, Declined(n - 1));
  }

  /** What the dialer, with `j` offers declined, meets instead of an answer to the next. */
  predicate Spoils(name: Name, m: Result<Message, ProtocolError>, e: ProtocolError) {
    match m
    case Err(error) => e == error
    case Ok(reply) => reply != Protocol(name) && reply != NotAvailable && e == InvalidMessage
  }

  predicate SpoiledAt(names: seq<Name>, i: nat, s: seq<Byte>, j: nat, e: ProtocolError)
    requires i <= j < |names|
  {
    var rest := Reads(s, Declined(j - i));
    rest.Some? && Spoils(names[j], ReceiveMessage(rest.value).0, e)
  }

  lemma SpoiledStep(names: seq<Name>, i: nat, s: seq<Byte>, j: nat, e: ProtocolError)
    requires i <= j < |names|
    ensures var (m, rest) := ReceiveMessage(s);
            SpoiledAt(names, i, s, j, e) <==>
            if i == j then Spoils(names[i], m, e) else m == Ok(NotAvailable) && SpoiledAt(names, i + 1, rest, j, e)
  {
    hide ReceiveMessage, Reads, Spoils;
    if i == j {
      assert Declined(0) == [];
      NoneRead(s);
    } else {
      DeclinedStep(s, j - i);
    }
  }

  /** The dialer waiting for the answer to its `i`-th offer. */
  lemma {:induction false} ReplyEnds(names: seq<Name>, i: nat, s: seq<Byte>)
    requires i < |names|
    ensures var run := DialerRun(names, DialerReply(i), s);
            && (run.outcome.Ok? ==> exists j :: i <= j < |names| && Confirmed(names, i, s, j).Some?)
            && (forall j :: i <= j < |names| && Confirmed(names, i, s, j).Some? ==>
                  run == Ran(Ok(names[j]), Offers(names, i + 1, j - i), Confirmed(names, i, s, j).value))
            && (run.outcome == Err(Failed(names)) <==> Reads(s, Declined(|names| - i)).Some?)
            && (run.outcome.Err? ==> run.outcome.error.Broken? || run.outcome.error == Failed(names))
    decreases |names| - i
  {
    hide ReceiveMessage, Reads, DialerRun, Wire, Confirmed;
    var (m, rest) := ReceiveMessage(s);
    DialerUnfolds(names, DialerReply(i), s);
    DeclinedStep(s, |names| - i);
    forall j | i <= j < |names| { ConfirmedStep(names, i, s, j); }
    if m == Ok(NotAvailable) {
      if i + 1 < |names| {
        ReplyEnds(names, i + 1, rest);
      } else {
        Ended(names, Err(Failed(names)), rest);
        assert Declined(0) == [];
        NoneRead(rest);
      }
    } else if m == Ok(Protocol(names[i])) {
      Ended(names, Ok(names[i]), rest);
    } else {
      var e := if m.Err? then m.error else InvalidMessage;
      Ended(names, Err(Broken(e)), rest);
    }
  }

  lemma {:induction false} ReplySpoiled(names: seq<Name>, i: nat, s: seq<Byte>, e: ProtocolError)
    requires i < |names|
    ensures DialerRun(names, DialerReply(i), s).outcome == Err(Broken(e)) <==>
            exists j :: i <= j < |names| && SpoiledAt(names, i, s, j, e)
    decreases |names| - i
  {
    hide ReceiveMessage, Reads, DialerRun, Wire, SpoiledAt;
    var (m, rest) := ReceiveMessage(s);
    DialerUnfolds(names, DialerReply(i), s);
    forall j | i <= j < |names| { SpoiledStep(names, i, s, j, e); }
    if m != Ok(NotAvailable) {
      var outcome := DialerOn(names, DialerReply(i), m).0.outcome;
      Ended(names, outcome, rest);
      assert outcome == Err(Broken(e)) <==> SpoiledAt(names, i, s, i, e);
    } else if i + 1 == |names| {
      Ended(names, Err(Failed(names)), rest);
    } else {
      var next := i + 1;
      ReplySpoiled(names, next, rest, e);
      if j :| next <= j < |names| && SpoiledAt(names, next, rest, j, e) {
        assert SpoiledAt(names, i, s, j, e);
      }
    }
  }

  lemma HeaderRead(names: seq<Name>, s: seq<Byte>)
    requires names != []
    ensures var (m, rest) := ReceiveMessage(s);
            DialerRun(names, DialerHeader, s) ==
            if m == Ok(Header) then After(Wire(Protocol(names[0])), DialerRun(names, DialerReply(0), rest))
            else Ran(Err(Broken(if m.Err? then m.error else InvalidMessage)), [], rest)
  {
    hide ReceiveMessage, DialerRun, Wire;
    var (m, rest) := ReceiveMessage(s);
    DialerUnfolds(names, DialerHeader, s);
    if m != Ok(Header) { Ended(names, Err(Broken(if m.Err? then m.error else InvalidMessage)), rest); }
  }

  /** The answers with which the `j`-th name is settled on. */
  function Settling(names: seq<Name>, j: nat): seq<Message>
    requires j < |names|
  {
    [Header] + (Declined(j) + [Protocol(names[j])])
  }

  /**
   * For any incoming bytes the dialer settles on its `j`-th name exactly when it reads the header, `j` refusals and
   * that name, having offered the names so far in order; and it fails for want of a common protocol exactly when it
   * reads the header and a refusal for each name.
   */
  lemma DialerSettlesIff(names: seq<Name>, s: seq<Byte>)
    ensures var run := DialerRun(names, DialerHeader, s);
            && (run.outcome.Ok? ==> exists j :: 0 <= j < |names| && Reads(s, Settling(names, j)).Some?)
            && (forall j :: 0 <= j < |names| && Reads(s, Settling(names, j)).Some? ==>
                  run == Ran(Ok(names[j]), Offers(names, 0, j + 1), Reads(s, Settling(names, j)).value))
            && (run.outcome == Err(Failed(names)) <==> Reads(s, [Header] + Declined(|names|)).Some?)
            && (run.outcome.Err? ==> run.outcome.error.Broken? || run.outcome.error == Failed(names))
  {
    hide ReceiveMessage, Reads, DialerRun, Wire;
    var (m, rest) := ReceiveMessage(s);
    ReadsCons(s, Header, Declined(|names|));
    forall j | 0 <= j < |names| ensures Reads(s, Settling(names, j)) ==
                                        if m == Ok(Header) then Confirmed(names, 0, rest, j) else None
    {
      ReadsCons(s, Header, Declined(j) + [Protocol(names[j])]);
    }
    if names == [] {
      NoNames(s);
    } else {
      HeaderRead(names, s);
      if m == Ok(Header) {
        ReplyEnds(names, 0, rest);
        assert forall j :: 0 <= j < |names| ==>
                 Offers(names, 0, j + 1) == Wire(Protocol(names[0])) + Offers(names, 1, j);
      }
    }
  }

  lemma NoNames(s: seq<Byte>)
    ensures var run := DialerRun([], DialerHeader, s);
            var (m, rest) := ReceiveMessage(s);
            && run.outcome == Err(if m == Ok(Header) then Failed([])
                                  else Broken(if m.Err? then m.error else InvalidMessage))
            && (m == Ok(Header) <==> Reads(s, [Header] + Declined(0)).Some?)
  {
    hide ReceiveMessage, Reads, DialerRun;
    var (m, rest) := ReceiveMessage(s);
    DialerUnfolds([], DialerHeader, s);
    ReadsCons(s, Header, Declined(0));
    assert Declined(0) == [];
    NoneRead(rest);
    Ended([], DialerOn([], DialerHeader, m).0.outcome, rest);
  }

  /** Any other end is the first thing read that is not an answer, and the error it stands for. */
  lemma DialerBreaksIff(names: seq<Name>, s: seq<Byte>, e: ProtocolError)
    ensures var (m, rest) := ReceiveMessage(s);
            DialerRun(names, DialerHeader, s).outcome == Err(Broken(e)) <==>
            if m == Ok(Header) then exists j :: 0 <= j < |names| && SpoiledAt(names, 0, rest, j, e)
            else e == if m.Err? then m.error else InvalidMessage
  {
    hide ReceiveMessage, Reads, DialerRun, Wire, SpoiledAt;
    if names == [] {
      NoNames(s);
    } else {
      HeaderRead(names, s);
      if ReceiveMessage(s).0 == Ok(Header) { ReplySpoiled(names, 0, ReceiveMessage(s).1, e); }
    }
  }

  // The listener

  /** A message that the listener answers without settling: a request for its names, or an offer it declines. */
  predicate Passes(names: seq<Name>, m: Message) {
    || (m == ListProtocols && |Encode(Protocols(names))| <= LengthDelimited.MAX_FRAME_SIZE)
    || (m.Protocol? && m.name !in names)
  }

  predicate AllPass(names: seq<Name>, ms: seq<Message>) {
    forall m :: m in ms ==> Passes(names, m)
  }

  /** The answers to such messages. */
  function Answers(names: seq<Name>, ms: seq<Message>): seq<Byte> {
    if ms == [] then []
    else Wire(if ms[0] == ListProtocols then Protocols(names) else NotAvailable) + Answers(names, ms[1..])
  }

  /** The listener settles on a name it is offered after messages it passes over. */
  lemma {:induction false} ServingSettles(names: seq<Name>, s: seq<Byte>, ms: seq<Message>, p: Name)
    requires AllPass(names, ms) && p in names && Reads(s, ms + [Protocol(p)]).Some?
    ensures ListenerRun(names, ListenerServing, s) ==
            Ran(Ok(p), Answers(names, ms) + Wire(Protocol(p)), Reads(s, ms + [Protocol(p)]).value)
    decreases |ms|
  {
    hide ReceiveMessage, Reads, ListenerRun, Wire, Encode;
    var (m, rest) := ReceiveMessage(s);
    ListenerUnfolds(names, ListenerServing, s);
    if ms == [] {
      assert ms + [Protocol(p)] == [Protocol(p)] + [];
      ReadsCons(s, Protocol(p), []);
      NoneRead(rest);
      Ended(names, Ok(p), rest);
    } else {
      assert ms + [Protocol(p)] == [ms[0]] + (ms[1..] + [Protocol(p)]);
      ReadsCons(s, ms[0], ms[1..] + [Protocol(p)]);
      ServingSettles(names, rest, ms[1..], p);
      var answer := Wire(if ms[0] == ListProtocols then Protocols(names) else NotAvailable);
      assert Passes(names, ms[0]);
      assert ListenerOn(names, ListenerServing, m) == (ListenerServing, answer);
      Regroup(answer, Answers(names, ms[1..]), Wire(Protocol(p)));
    }
  }

  /** It settles in no other way. */
  lemma {:induction false} ServingSettled(names: seq<Name>, s: seq<Byte>) returns (ms: seq<Message>, p: Name)
    requires ListenerRun(names, ListenerServing, s).outcome.Ok?
    ensures AllPass(names, ms) && p in names && Reads(s, ms + [Protocol(p)]).Some?
    decreases |s|
  {
    hide ReceiveMessage, Reads, ListenerRun, Wire, Encode;
    var (m, rest) := ReceiveMessage(s);
    ListenerUnfolds(names, ListenerServing, s);
    var next := ListenerOn(names, ListenerServing, m).0;
    if next.ListenerDone? {
      Ended(names, next.outcome, rest);
      ms, p := [], m.value.name;
      assert ms + [Protocol(p)] == [Protocol(p)] + [];
      ReadsCons(s, Protocol(p), []);
      NoneRead(rest);
    } else {
      var later;
      later, p := ServingSettled(names, rest);
      ms := [m.value] + later;
      assert ms + [Protocol(p)] == [m.value] + (later + [Protocol(p)]);
      ReadsCons(s, m.value, later + [Protocol(p)]);
    }
  }

  /** What is read on the way to a listener that settles on `p`. */
  function Offered(ms: seq<Message>, p: Name): seq<Message> {
    [Header] + (ms + [Protocol(p)])
  }

  /**
   * For any incoming bytes the listener settles on a name exactly when it reads the header, messages it passes over,
   * and an offer of that name, which it supports; it has then sent the header, an answer to each, and the name.
   */
  lemma ListenerSettlesIff(names: seq<Name>, s: seq<Byte>)
    ensures var run := ListenerRun(names, ListenerHeader, s);
            && (run.outcome.Ok? ==>
                  exists ms, p :: AllPass(names, ms) && p in names && Reads(s, Offered(ms, p)).Some?)
            && (forall ms, p :: AllPass(names, ms) && p in names && Reads(s, Offered(ms, p)).Some? ==>
                  run == Ran(Ok(p), Wire(Header) + (Answers(names, ms) + Wire(Protocol(p))),
                             Reads(s, Offered(ms, p)).value))
  {
    hide ReceiveMessage, Reads, ListenerRun, Wire, Encode, AllPass;
    var (m, rest) := ReceiveMessage(s);
    ListenerUnfolds(names, ListenerHeader, s);
    forall ms, p | AllPass(names, ms) && p in names && Reads(s, Offered(ms, p)).Some?
      ensures ListenerRun(names, ListenerHeader, s) ==
              Ran(Ok(p), Wire(Header) + (Answers(names, ms) + Wire(Protocol(p))), Reads(s, Offered(ms, p)).value)
    {
      ReadsCons(s, Header, ms + [Protocol(p)]);
      ServingSettles(names, rest, ms, p);
    }
    if m != Ok(Header) {
      Ended(names, Err(Broken(if m.Err? then m.error else InvalidMessage)), rest);
    } else if ListenerRun(names, ListenerServing, rest).outcome.Ok? {
      var ms, p := ServingSettled(names, rest);
      ReadsCons(s, Header, ms + [Protocol(p)]);
      assert Reads(s, Offered(ms, p)).Some?;
    }
  }

  // What the other side reads of an answer

  /** A message that survives the wire and fits a frame is read back as itself. */
  lemma WireIsRead(m: Message, later: seq<Byte>)
    requires Transmissible(m) && |Encode(m)| <= LengthDelimited.MAX_FRAME_SIZE
    ensures ReceiveMessage(Wire(m) + later) == (Ok(m), later)
  {
    hide LengthDelimited.Receive, LengthDelimited.Frame, Encode, Decode;
    LengthDelimited.ReceiveFrame(Encode(m), later);
    RoundTrip(m);
  }

  /** A request for the listener's names is answered by a message that reads as exactly those names. */
  lemma ListIsRead(names: seq<Name>, later: seq<Byte>)
    requires |names| <= MAX_PROTOCOLS && |Encode(Protocols(names))| <= LengthDelimited.MAX_FRAME_SIZE
    ensures var (next, sent) := ListenerOn(names, ListenerServing, Ok(ListProtocols));
            next == ListenerServing && ReceiveMessage(sent + later) == (Ok(Protocols(names)), later)
  {
    hide ReceiveMessage, Wire, Encode;
    WireIsRead(Protocols(names), later);
  }

  /** The bytes of the constant messages, of an offer and of a list, each behind its length. */
  lemma WireBytes(p: Name)
    ensures Wire(Header) == [19, 47, 109, 117, 108, 116, 105, 115, 116, 114, 101, 97, 109, 47, 49, 46, 48, 46, 48, 10]
    ensures Wire(NotAvailable) == [3, 110, 97, 10] && Wire(ListProtocols) == [3, 108, 115, 10]
    ensures |p| < 127 ==> Wire(Protocol(p)) == [|p| + 1] + p + [10]
    ensures |p| < 127 ==> Encode(Protocols([p])) == [1, |p| + 1] + p + [10]
  {
    assert [p][1..] == [];
    assert Entries([p]) == Entry(p);
  }
}
