/** Every run of a dialer and a listener joined by two reliable FIFO streams, under every delivery schedule. */
module NegotiationRuns {
  import opened Bytes
  import opened MultistreamProtocol
  import opened LengthDelimited
  import opened Negotiator

  /** One direction of the connection: delivered bytes, bytes under way, and whether the writer has closed it. */
  datatype Pipe = Pipe(ready: seq<Byte>, flying: seq<Byte>, closed: bool) {
    function Content(): seq<Byte> { ready + flying }

    function Write(bytes: seq<Byte>, closing: bool): Pipe {
      Pipe(ready, flying + bytes, closed || closing)
    }

    function Deliver(n: nat): Pipe
      requires n <= |flying|
    {
      Pipe(ready + flying[..n], flying[n..], closed)
    }

    /** A read completes when a whole frame, or the end of the stream, has arrived. */
    predicate Readable() {
      Receive(ready).frame != Err(UnexpectedEof) || (closed && flying == [])
    }

    predicate Is(bytes: seq<Byte>, shut: bool) {
      Content() == bytes && closed == shut
    }
  }

  /**
   * `up` leads to the listener, `down` to the dialer.  Of what each side wrote, `Sent` holds what it wrote while it
   * negotiated, after the dialer's header, and `Data` what it wrote after it had returned a name.
   */
  datatype Net = Net(dialer: Dialer, listener: Listener, up: Pipe, down: Pipe,
                     dialerSent: seq<Byte>, listenerSent: seq<Byte>,
                     dialerData: seq<Byte>, listenerData: seq<Byte>)

  datatype Step =
    | DeliverUp(n: nat)
    | DeliverDown(n: nat)
    | DialerReceives
    | ListenerReceives
    | DialerWrites(data: seq<Byte>)
    | ListenerWrites(data: seq<Byte>)

  function Init(): Net {
    Net(DialerHeader, ListenerHeader, Pipe([], Wire(Header), false), Pipe([], [], false), [], [], [], [])
  }

  predicate Enabled(s: Net, step: Step) {
    match step
    case DeliverUp(n) => 0 < n <= |s.up.flying|
    case DeliverDown(n) => 0 < n <= |s.down.flying|
    case DialerReceives => !s.dialer.DialerDone? && s.down.Readable()
    case ListenerReceives => !s.listener.ListenerDone? && s.up.Readable()
    case DialerWrites(_) => s.dialer.DialerDone? && s.dialer.outcome.Ok?
    case ListenerWrites(_) => s.listener.ListenerDone? && s.listener.outcome.Ok?
  }

  /** A side that returns an error drops its socket, which closes its outgoing direction. */
  function Take(ours: seq<Name>, theirs: seq<Name>, s: Net, step: Step): Net
    requires Enabled(s, step) && DialerOk(ours, s.dialer)
  {
    match step
    case DeliverUp(n) => s.(up := s.up.Deliver(n))
    case DeliverDown(n) => s.(down := s.down.Deliver(n))
    case DialerReceives =>
      var (m, rest) := ReceiveMessage(s.down.ready);
      var (next, sent) := DialerOn(ours, s.dialer, m);
      s.(dialer := next, down := s.down.(ready := rest), dialerSent := s.dialerSent + sent,
         up := s.up.Write(sent, next.DialerDone? && next.outcome.Err?))
    case ListenerReceives =>
      var (m, rest) := ReceiveMessage(s.up.ready);
      var (next, sent) := ListenerOn(theirs, s.listener, m);
      s.(listener := next, up := s.up.(ready := rest), listenerSent := s.listenerSent + sent,
         down := s.down.Write(sent, next.ListenerDone? && next.outcome.Err?))
    case DialerWrites(data) => s.(up := s.up.Write(data, false), dialerData := s.dialerData + data)
    case ListenerWrites(data) => s.(down := s.down.Write(data, false), listenerData := s.listenerData + data)
  }

  /** The first offer that is not simply turned down: supported, or lost on the wire. */
  function Pivot(ours: seq<Name>, theirs: seq<Name>): (j: nat)
    ensures j <= |ours|
    ensures forall i :: 0 <= i < j ==> ours[i] !in theirs && Transmissible(Protocol(ours[i]))
    ensures j < |ours| ==> ours[j] in theirs || !Transmissible(Protocol(ours[j]))
  {
    if ours == [] || ours[0] in theirs || !Transmissible(Protocol(ours[0])) then 0
    else 1 + Pivot(ours[1..], theirs)
  }

  /** The reachable configurations: who waits for what, and exactly which bytes are between them. */
  predicate Inv(ours: seq<Name>, theirs: seq<Name>, s: Net) {
    var j := Pivot(ours, theirs);
    && DialerOk(ours, s.dialer)
    && (s.dialerData == [] || (s.dialer.DialerDone? && s.dialer.outcome.Ok?))
    && (s.listenerData == [] || (s.listener.ListenerDone? && s.listener.outcome.Ok?))
    && match (s.dialer, s.listener)
       case (DialerHeader, ListenerHeader) => s.up.Is(Wire(Header), false) && s.down.Is([], false)
       case (DialerHeader, ListenerServing) => s.up.Is([], false) && s.down.Is(Wire(Header), false)
       case (DialerReply(i), ListenerServing) =>
         || (i <= j && s.up.Is(Wire(Protocol(ours[i])), false) && s.down.Is([], false))
         || (i < j && s.up.Is([], false) && s.down.Is(Wire(NotAvailable), false))
       case (DialerReply(i), ListenerDone(Ok(n))) =>
         && i == j && n == ours[j] && Transmissible(Protocol(n)) && n in theirs
         && s.up.Is([], false) && s.down.Is(Wire(Protocol(n)) + s.listenerData, false)
       case (DialerReply(i), ListenerDone(Err(_))) =>
         i == j && !Transmissible(Protocol(ours[j])) && s.up.Is([], false) && s.down.Is([], true)
       case (DialerDone(Ok(n)), ListenerDone(Ok(n'))) =>
         && j < |ours| && n == n' == ours[j] && Transmissible(Protocol(n)) && n in theirs
         && s.up.Is(s.dialerData, false) && s.down.Is(s.listenerData, false)
       case (DialerDone(Err(Failed(cause))), ListenerServing) =>
         j == |ours| && cause == ours && s.up.Is([], true) && s.down.Is([], false)
       case (DialerDone(Err(Failed(cause))), ListenerDone(Err(e))) =>
         j == |ours| && cause == ours && e == Broken(Io(UnexpectedEof)) && s.up.Is([], true) && s.down.Is([], true)
       case (DialerDone(Err(Broken(e))), ListenerDone(Err(_))) =>
         && j < |ours| && !Transmissible(Protocol(ours[j])) && e == Io(UnexpectedEof)
         && s.up.Is([], true) && s.down.Is([], true)
       case _ => false
  }

  /** A completed read of a pipe that carries a message takes that message and nothing after it. */
  lemma ReadsWire(p: Pipe, m: Message, tail: seq<Byte>)
    requires p.Readable() && p.Content() == Wire(m) + tail && |Encode(m)| <= MAX_FRAME_SIZE
    ensures ReceiveMessage(p.ready).0 == Decode(Encode(m))
    ensures p.(ready := ReceiveMessage(p.ready).1).Content() == tail
  {
    ReceiveFrame(Encode(m), tail);
    if p.flying == [] { assert p.ready == p.Content(); }
    ReceiveExtends(p.ready, p.flying);
  }

  lemma ReadsEmpty(p: Pipe)
    requires p.Content() == []
    ensures p.Readable() <==> p.closed
    ensures ReceiveMessage(p.ready) == (Err(Io(UnexpectedEof)), [])
  {
    assert p.ready == [] && p.flying == [];
  }

  lemma Writes(p: Pipe, bytes: seq<Byte>, closing: bool)
    ensures p.Write(bytes, closing).Content() == p.Content() + bytes
  {
    assert p.ready + (p.flying + bytes) == p.ready + p.flying + bytes;
  }

  lemma Delivers(p: Pipe, n: nat)
    requires n <= |p.flying|
    ensures p.Deliver(n).Content() == p.Content()
  {
    assert p.flying == p.flying[..n] + p.flying[n..];
    assert p.ready + p.flying == p.ready + p.flying[..n] + p.flying[n..];
  }

  lemma ReadsOnly(p: Pipe, m: Message)
    requires p.Readable() && p.Content() == Wire(m) && !m.Protocols?
    ensures ReceiveMessage(p.ready).0 == Decode(Encode(m))
    ensures p.(ready := ReceiveMessage(p.ready).1).Content() == []
  {
    ShortMessage(m);
    assert Wire(m) + [] == Wire(m);
    ReadsWire(p, m, []);
  }

  lemma EmptyPlus(p: Pipe, bytes: seq<Byte>, closing: bool)
    requires p.Content() == []
    ensures p.Write(bytes, closing).Content() == bytes
  {
    Writes(p, bytes, closing);
    assert [] + bytes == bytes;
  }

  lemma ListenerKeeps(ours: seq<Name>, theirs: seq<Name>, s: Net)
    requires Inv(ours, theirs, s) && Enabled(s, ListenerReceives)
    ensures Inv(ours, theirs, Take(ours, theirs, s, ListenerReceives))
  {
    hide ReceiveMessage, Encode, Decode, Wire;
    var next := Take(ours, theirs, s, ListenerReceives);
    EmptyPlusAll(s.down);
    match (s.dialer, s.listener)
    case (DialerHeader, ListenerHeader) =>
      ReadsOnly(s.up, Header);
      RoundTrip(Header);
    case (DialerReply(i), ListenerServing) =>
      if s.up.Content() == [] {
        ReadsEmpty(s.up);
      } else {
        ReadsOnly(s.up, Protocol(ours[i]));
        RoundTrip(Protocol(ours[i]));
        LostName(ours[i]);
        assert Wire(Protocol(ours[i])) + [] == Wire(Protocol(ours[i]));
      }
    case _ =>
      ReadsEmpty(s.up);
  }

  lemma EmptyPlusAll(p: Pipe)
    ensures p.Content() == [] ==> forall bytes, closing :: p.Write(bytes, closing).Content() == bytes
  {
    if p.Content() == [] {
      forall bytes, closing ensures p.Write(bytes, closing).Content() == bytes {
        EmptyPlus(p, bytes, closing);
      }
    }
  }

  /** An offer that is lost reaches the listener as an error or as a second header. */
  lemma LostName(p: Name)
    ensures !Transmissible(Protocol(p)) ==>
              Decode(Encode(Protocol(p))).Err? || Decode(Encode(Protocol(p))) == Ok(Header)
  {
    if |p| < MAX_PROTOCOL_LEN { NameRoundTrip(p); } else { LongestNameIsLost(p); }
  }

  lemma DialerKeeps(ours: seq<Name>, theirs: seq<Name>, s: Net)
    requires Inv(ours, theirs, s) && Enabled(s, DialerReceives)
    ensures Inv(ours, theirs, Take(ours, theirs, s, DialerReceives))
  {
    hide ReceiveMessage, Encode, Decode, Wire;
    EmptyPlusAll(s.up);
    match (s.dialer, s.listener)
    case (DialerHeader, ListenerServing) =>
      ReadsOnly(s.down, Header);
      RoundTrip(Header);
    case (DialerReply(i), ListenerServing) =>
      if s.down.Content() == [] {
        ReadsEmpty(s.down);
      } else {
        ReadsOnly(s.down, NotAvailable);
        RoundTrip(NotAvailable);
      }
    case (DialerReply(i), ListenerDone(Ok(n))) =>
      ShortMessage(Protocol(n));
      ReadsWire(s.down, Protocol(n), s.listenerData);
      RoundTrip(Protocol(n));
    case _ =>
      ReadsEmpty(s.down);
  }

  lemma DeliveryKeeps(ours: seq<Name>, theirs: seq<Name>, s: Net, step: Step)
    requires Inv(ours, theirs, s) && Enabled(s, step) && (step.DeliverUp? || step.DeliverDown?)
    ensures Inv(ours, theirs, Take(ours, theirs, s, step))
  {
    hide Pivot, Wire;
    if step.DeliverUp? { Delivers(s.up, step.n); } else { Delivers(s.down, step.n); }
  }

  lemma WriteKeeps(ours: seq<Name>, theirs: seq<Name>, s: Net, step: Step)
    requires Inv(ours, theirs, s) && Enabled(s, step) && (step.DialerWrites? || step.ListenerWrites?)
    ensures Inv(ours, theirs, Take(ours, theirs, s, step))
  {
    hide Pivot, Wire;
    if step.DialerWrites? {
      Writes(s.up, step.data, false);
    } else {
      Writes(s.down, step.data, false);
      if s.dialer.DialerReply? { Regroup(Wire(Protocol(s.listener.outcome.value)), s.listenerData, step.data); }
    }
  }

  lemma StepKeeps(ours: seq<Name>, theirs: seq<Name>, s: Net, step: Step)
    requires Inv(ours, theirs, s) && Enabled(s, step)
    ensures Inv(ours, theirs, Take(ours, theirs, s, step))
  {
    match step
    case DialerReceives => DialerKeeps(ours, theirs, s);
    case ListenerReceives => ListenerKeeps(ours, theirs, s);
    case DeliverUp(n) => DeliveryKeeps(ours, theirs, s, step);
    case DeliverDown(n) => DeliveryKeeps(ours, theirs, s, step);
    case DialerWrites(data) => WriteKeeps(ours, theirs, s, step);
    case ListenerWrites(data) => WriteKeeps(ours, theirs, s, step);
  }

  /** A schedule, as the list of steps taken from `s`. */
  predicate Executable(ours: seq<Name>, theirs: seq<Name>, s: Net, steps: seq<Step>)
    decreases |steps|
  {
    && DialerOk(ours, s.dialer)
    && (steps == [] ||
        (Enabled(s, steps[0]) && Executable(ours, theirs, Take(ours, theirs, s, steps[0]), steps[1..])))
  }

  function Final(ours: seq<Name>, theirs: seq<Name>, s: Net, steps: seq<Step>): Net
    requires Executable(ours, theirs, s, steps)
    decreases |steps|
  {
    if steps == [] then s else Final(ours, theirs, Take(ours, theirs, s, steps[0]), steps[1..])
  }

  function Receipts(steps: seq<Step>): nat {
    if steps == [] then 0
    else (if steps[0].DialerReceives? || steps[0].ListenerReceives? then 1 else 0) + Receipts(steps[1..])
  }

  /** How many messages can still be received. */
  function Rank(ours: seq<Name>, s: Net): nat
    requires DialerOk(ours, s.dialer)
  {
    match (s.dialer, s.listener)
    case (DialerHeader, ListenerHeader) => 2 * |ours| + 5
    case (DialerHeader, ListenerServing) => 2 * |ours| + 4
    case (DialerReply(i), ListenerServing) => 2 * (|ours| - i) + (if s.up.Content() != [] then 3 else 2)
    case (DialerReply(i), ListenerDone(_)) => 1
    case (DialerDone(_), ListenerServing) => 1
    case _ => 0
  }

  lemma ListenerDescends(ours: seq<Name>, theirs: seq<Name>, s: Net)
    requires Inv(ours, theirs, s) && Enabled(s, ListenerReceives)
    requires Inv(ours, theirs, Take(ours, theirs, s, ListenerReceives))
    ensures Rank(ours, Take(ours, theirs, s, ListenerReceives)) < Rank(ours, s)
  {
    hide ReceiveMessage, Encode, Decode, Wire, Pivot;
    if s.up.Content() == [] { ReadsEmpty(s.up); }
  }

  lemma DialerDescends(ours: seq<Name>, theirs: seq<Name>, s: Net)
    requires Inv(ours, theirs, s) && Enabled(s, DialerReceives)
    requires Inv(ours, theirs, Take(ours, theirs, s, DialerReceives))
    ensures Rank(ours, Take(ours, theirs, s, DialerReceives)) < Rank(ours, s)
  {
    hide ReceiveMessage, Encode, Decode, Wire, Pivot;
    if s.down.Content() == [] { ReadsEmpty(s.down); }
  }

  lemma ReceiveDescends(ours: seq<Name>, theirs: seq<Name>, s: Net, step: Step)
    requires Inv(ours, theirs, s) && Enabled(s, step)
    ensures var next := Take(ours, theirs, s, step);
            Inv(ours, theirs, next)
            && if step.DialerReceives? || step.ListenerReceives? then Rank(ours, next) < Rank(ours, s)
               else Rank(ours, next) == Rank(ours, s)
  {
    StepKeeps(ours, theirs, s, step);
    match step
    case DialerReceives => DialerDescends(ours, theirs, s);
    case ListenerReceives => ListenerDescends(ours, theirs, s);
    case DeliverUp(n) => Delivers(s.up, n);
    case _ =>
  }

  lemma {:induction false} RunKeeps(ours: seq<Name>, theirs: seq<Name>, s: Net, steps: seq<Step>)
    requires Inv(ours, theirs, s) && Executable(ours, theirs, s, steps)
    ensures Inv(ours, theirs, Final(ours, theirs, s, steps))
    ensures Receipts(steps) + Rank(ours, Final(ours, theirs, s, steps)) <= Rank(ours, s)
    decreases |steps|
  {
    if steps != [] {
      ReceiveDescends(ours, theirs, s, steps[0]);
      RunKeeps(ours, theirs, Take(ours, theirs, s, steps[0]), steps[1..]);
    }
  }

  /** Everything sent has arrived and neither side can read. */
  predicate Quiescent(s: Net) {
    s.up.flying == [] && s.down.flying == [] && !Enabled(s, DialerReceives) && !Enabled(s, ListenerReceives)
  }

  lemma ArrivedIsReadable(p: Pipe, m: Message, tail: seq<Byte>)
    requires p.flying == [] && p.Content() == Wire(m) + tail && !m.Protocols?
    ensures p.Readable()
  {
    ShortMessage(m);
    ReceiveFrame(Encode(m), tail);
    assert p.ready == p.Content();
  }

  lemma WireIsNonempty(m: Message)
    ensures Wire(m) != []
  {
  }

  lemma QuiescentIsDone(ours: seq<Name>, theirs: seq<Name>, s: Net)
    requires Inv(ours, theirs, s) && Quiescent(s)
    ensures s.dialer.DialerDone? && s.listener.ListenerDone?
  {
    hide Receive, ReceiveMessage, Encode, Decode, Wire;
    match (s.dialer, s.listener)
    case (DialerHeader, ListenerHeader) => ArrivedIsReadable(s.up, Header, []);
    case (DialerHeader, ListenerServing) => ArrivedIsReadable(s.down, Header, []);
    case (DialerReply(i), ListenerServing) =>
      WireIsNonempty(Protocol(ours[i]));
      if s.up.Content() != [] {
        ArrivedIsReadable(s.up, Protocol(ours[i]), []);
      } else {
        ArrivedIsReadable(s.down, NotAvailable, []);
      }
    case (DialerReply(i), ListenerDone(Ok(n))) => ArrivedIsReadable(s.down, Protocol(n), s.listenerData);
    case (DialerReply(i), ListenerDone(Err(_))) => ReadsEmpty(s.down);
    case (DialerDone(_), ListenerServing) => ReadsEmpty(s.up);
    case _ =>
  }

  function FirstShared(ours: seq<Name>, theirs: seq<Name>): (k: nat)
    ensures k <= |ours|
    ensures forall i :: 0 <= i < k ==> ours[i] !in theirs
    ensures k < |ours| ==> ours[k] in theirs
  {
    if ours == [] || ours[0] in theirs then 0 else 1 + FirstShared(ours[1..], theirs)
  }

  /**
   * What negotiation is for: both sides return the dialer's first name that the listener supports, leaving
   * unread exactly what was written afterwards; without such a name the dialer reports all its names as rejected.
   */
  predicate Promise(ours: seq<Name>, theirs: seq<Name>, s: Net) {
    var k := FirstShared(ours, theirs);
    if k < |ours| then
      && s.dialer == DialerDone(Ok(ours[k])) && s.listener == ListenerDone(Ok(ours[k]))
      && s.up.Content() == s.dialerData && s.down.Content() == s.listenerData
    else
      s.dialer == DialerDone(Err(Failed(ours))) && s.listener == ListenerDone(Err(Broken(Io(UnexpectedEof))))
  }

  /** Every name that would be offered survives the wire. */
  predicate OffersSurvive(ours: seq<Name>, theirs: seq<Name>) {
    forall i :: 0 <= i < |ours| && i <= FirstShared(ours, theirs) ==> Transmissible(Protocol(ours[i]))
  }

  /**
   * Every run reads at most 2n + 5 messages, and once it is quiescent it has kept the promise exactly when the
   * offers survive.
   */
  lemma EveryRunEndsAsPromised(ours: seq<Name>, theirs: seq<Name>, steps: seq<Step>)
    requires Executable(ours, theirs, Init(), steps)
    ensures Receipts(steps) <= 2 * |ours| + 5
    ensures var s := Final(ours, theirs, Init(), steps);
            Quiescent(s) ==> (Promise(ours, theirs, s) <==> OffersSurvive(ours, theirs))
  {
    hide Wire, Take, Enabled;
    var s := Final(ours, theirs, Init(), steps);
    RunKeeps(ours, theirs, Init(), steps);
    if Quiescent(s) {
      QuiescentIsDone(ours, theirs, s);
      PivotMeetsFirstShared(ours, theirs);
    }
  }

  /** From every reachable state deliveries and receipts alone lead to a quiescent one. */
  lemma {:induction false} CanBeCompleted(ours: seq<Name>, theirs: seq<Name>, s: Net) returns (steps: seq<Step>)
    requires Inv(ours, theirs, s)
    ensures Executable(ours, theirs, s, steps) && Quiescent(Final(ours, theirs, s, steps))
    ensures forall step :: step in steps ==> !step.DialerWrites? && !step.ListenerWrites?
    decreases Rank(ours, s), |s.up.flying| + |s.down.flying|
  {
    assert DialerOk(ours, s.dialer);
    hide Wire, ReceiveMessage, Receive, DialerOn, ListenerOn, Rank, Inv, Pipe.Readable;
    if Quiescent(s) {
      steps := [];
    } else {
      var step := if s.up.flying != [] then DeliverUp(|s.up.flying|)
                  else if s.down.flying != [] then DeliverDown(|s.down.flying|)
                  else if Enabled(s, DialerReceives) then DialerReceives else ListenerReceives;
      ReceiveDescends(ours, theirs, s, step);
      var later := CanBeCompleted(ours, theirs, Take(ours, theirs, s, step));
      steps := [step] + later;
      assert steps[1..] == later;
    }
  }

  lemma PivotMeetsFirstShared(ours: seq<Name>, theirs: seq<Name>)
    ensures var j, k := Pivot(ours, theirs), FirstShared(ours, theirs);
            j <= k && (OffersSurvive(ours, theirs) <==> j == k && (j < |ours| ==> Transmissible(Protocol(ours[j]))))
  {
    var j, k := Pivot(ours, theirs), FirstShared(ours, theirs);
    if j < k { assert ours[j] !in theirs; }
  }

  /**
   * At no moment of any run does a side hold a name other than the first shared one, or the dialer a name the
   * listener lacks.
   */
  lemma ReturnedNamesAgree(ours: seq<Name>, theirs: seq<Name>, steps: seq<Step>)
    requires Executable(ours, theirs, Init(), steps)
    ensures var s := Final(ours, theirs, Init(), steps);
            && (s.dialer.DialerDone? && s.dialer.outcome.Ok? ==> s.listener == ListenerDone(s.dialer.outcome))
            && (s.listener.ListenerDone? && s.listener.outcome.Ok? ==>
                  FirstShared(ours, theirs) < |ours| && s.listener.outcome.value == ours[FirstShared(ours, theirs)])
  {
    RunKeeps(ours, theirs, Init(), steps);
    PivotMeetsFirstShared(ours, theirs);
  }
}
