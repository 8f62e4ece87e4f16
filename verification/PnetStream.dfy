/**
 * The private-network stream: a writer that enciphers into a buffer and drains it into a socket that
 * takes bytes as it pleases, and a reader that deciphers whatever the socket hands over.
 *
 * The cipher is the exclusive or with a keystream, a function of the offset.  The socket is a script of
 * outcomes, one per poll; a script that has run out answers Pending.
 */
module PnetStream {

  type Octet = bv8

  type Keystream = nat -> Octet

  /** The stream cipher applied to `data` from offset `at` on. */
  function Apply(ks: Keystream, at: nat, data: seq<Octet>): (r: seq<Octet>)
    ensures |r| == |data|
  {
    seq(|data|, i requires 0 <= i < |data| => data[i] ^ ks(at + i))
  }

  lemma ApplySplit(ks: Keystream, at: nat, a: seq<Octet>, b: seq<Octet>)
    ensures Apply(ks, at, a + b) == Apply(ks, at, a) + Apply(ks, at + |a|, b)
  {
  }

  lemma ApplyTwice(ks: Keystream, at: nat, data: seq<Octet>)
    ensures Apply(ks, at, Apply(ks, at, data)) == data
  {
    forall i | 0 <= i < |data| ensures Apply(ks, at, Apply(ks, at, data))[i] == data[i] {
      XorTwice(data[i], ks(at + i));
    }
  }

  lemma XorTwice(a: Octet, b: Octet)
    ensures (a ^ b) ^ b == a
  {
  }

  // The writer

  /** What the socket answers when it is polled. */
  datatype Outcome = Accept(n: nat) | Interrupt | Wait | Fail

  datatype Error = WriteZero | Interrupted | Broken

  datatype Poll = Pending | Done(n: nat) | Failed(error: Error)

  datatype State = State(buf: seq<Octet>, position: nat, delivered: seq<Octet>, script: seq<Outcome>)

  function Min(a: nat, b: nat): nat {
    if a < b then a else b
  }

  /** Draining the buffer: every byte the socket takes moves from the buffer's front to the delivered bytes. */
  function FlushBuf(s: State): (r: (State, Poll))
    ensures r.0.position == s.position
    ensures r.1.Done? <==> r.0.buf == []
    decreases |s.script|
  {
    if s.buf == [] then (s, Done(0))
    else if s.script == [] then (s, Pending)
    else
      var next := s.(script := s.script[1..]);
      match s.script[0]
      case Accept(n) =>
        if n == 0 then (next, Failed(WriteZero))
        else
          var k := Min(n, |s.buf|);
          FlushBuf(next.(buf := s.buf[k..], delivered := s.delivered + s.buf[..k]))
      case Interrupt => FlushBuf(next)
      case Wait => (next, Pending)
      case Fail => (next, Failed(Broken))
  }

  /** The bytes on their way, delivered or buffered, are the same before and after a drain. */
  lemma {:induction false} FlushConserves(s: State)
    ensures FlushBuf(s).0.delivered + FlushBuf(s).0.buf == s.delivered + s.buf
    ensures s.delivered <= FlushBuf(s).0.delivered
    decreases |s.script|
  {
    if s.buf != [] && s.script != [] {
      var next := s.(script := s.script[1..]);
      match s.script[0]
      case Accept(n) =>
        if n > 0 {
          var k := Min(n, |s.buf|);
          FlushConserves(next.(buf := s.buf[k..], delivered := s.delivered + s.buf[..k]));
          assert s.delivered + s.buf[..k] + s.buf[k..] == s.delivered + s.buf;
        }
      case Interrupt => FlushConserves(next);
      case Wait =>
      case Fail =>
    }
  }

  /** A write: drain, take all of `data` into the buffer, encipher it there, drain again. */
  function Write(ks: Keystream, s: State, data: seq<Octet>): (State, Poll) {
    var (s1, p1) := FlushBuf(s);
    if !p1.Done? then (s1, p1)
    else
      var s2 := s1.(buf := Apply(ks, s1.position, data), position := s1.position + |data|);
      var (s3, p3) := FlushBuf(s2);
      (s3, if p3.Failed? then p3 else Done(|data|))
  }

  /** A write that takes its bytes puts each, exclusive-ored with the keystream at its offset, behind the rest. */
  lemma WriteEnciphers(ks: Keystream, s: State, data: seq<Octet>)
    requires FlushBuf(s).1.Done?
    ensures var t := Write(ks, s, data).0;
            var before, after := s.delivered + s.buf, t.delivered + t.buf;
            && |after| == |before| + |data| && after[..|before|] == before && t.position == s.position + |data|
            && forall i :: 0 <= i < |data| ==> after[|before| + i] == data[i] ^ ks(s.position + i)
  {
    hide FlushBuf;
    var s1 := FlushBuf(s).0;
    var s2 := s1.(buf := Apply(ks, s1.position, data), position := s1.position + |data|);
    FlushConserves(s);
    FlushConserves(s2);
    assert s1.delivered + [] == s1.delivered;
  }

  /** Flushing or closing the socket itself, once the buffer is empty. */
  function PollInner(s: State): (State, Poll) {
    if s.script == [] then (s, Pending)
    else
      (s.(script := s.script[1..]),
       match s.script[0]
       case Accept(_) => Done(0)
       case Interrupt => Failed(Interrupted)
       case Wait => Pending
       case Fail => Failed(Broken))
  }

  function Flush(s: State): (State, Poll) {
    var (s1, p1) := FlushBuf(s);
    if p1.Done? then PollInner(s1) else (s1, p1)
  }

  class CryptWriter {
    const ks: Keystream
    var buf: seq<Octet>
    var position: nat
    var delivered: seq<Octet>
    var script: seq<Outcome>

    ghost function View(): State
      reads this
    {
      State(buf, position, delivered, script)
    }

    constructor (ks: Keystream, delivered: seq<Octet>, script: seq<Outcome>)
      ensures this.ks == ks && View() == State([], 0, delivered, script)
    {
      this.ks, this.buf, this.position, this.delivered, this.script := ks, [], 0, delivered, script;
    }

    /** The socket's own write of a non-empty slice. */
    method InnerWrite(data: seq<Octet>) returns (r: Poll)
      requires data != []
      modifies this`delivered, this`script
      ensures old(script) == [] ==> r == Pending && View() == old(View())
      ensures old(script) != [] ==> script == old(script)[1..]
      ensures old(script) != [] && old(script)[0].Accept? ==>
                var k := Min(old(script)[0].n, |data|);
                r == Done(k) && delivered == old(delivered) + data[..k]
      ensures old(script) != [] && !old(script)[0].Accept? ==> delivered == old(delivered)
      ensures old(script) != [] && old(script)[0].Interrupt? ==> r == Failed(Interrupted)
      ensures old(script) != [] && old(script)[0].Wait? ==> r == Pending
      ensures old(script) != [] && old(script)[0].Fail? ==> r == Failed(Broken)
    {
      if script == [] { return Pending; }
      var outcome := script[0];
      script := script[1..];
      match outcome
      case Accept(n) =>
        r := Done(Min(n, |data|));
        delivered := delivered + data[..Min(n, |data|)];
      case Interrupt => r := Failed(Interrupted);
      case Wait => r := Pending;
      case Fail => r := Failed(Broken);
    }

    method PollFlushBuf() returns (ret: Poll)
      modifies this
      ensures (View(), ret) == FlushBuf(old(View()))
    {
      ret := Done(0);
      var written := 0;
      var len := |buf|;
      while written < len
        invariant written <= len == |buf| && ret == Done(0)
        invariant buf == old(buf) && position == old(position)
        invariant FlushBuf(View().(buf := buf[written..])) == FlushBuf(old(View()))
        decreases |script|
      {
        ghost var s := View().(buf := buf[written..]);
        var r := InnerWrite(buf[written..]);
        match r
        case Done(n) =>
          if n > 0 {
            assert buf[written..][n..] == buf[written + n..];
            written := written + n;
          } else {
            assert s.delivered + s.buf[..0] == s.delivered;
            ret := Failed(WriteZero);
            break;
          }
        case Failed(e) =>
          if e != Interrupted {
            ret := Failed(e);
            break;
          }
        case Pending =>
          ret := Pending;
          break;
      }
      assert written == 0 ==> buf[written..] == buf;
      if written > 0 {
        buf := buf[written..];
      }
    }

    method PollWrite(data: seq<Octet>) returns (r: Poll)
      modifies this
      ensures (View(), r) == Write(ks, old(View()), data)
      ensures FlushBuf(old(View())).1.Done? ==>
                var before, after := old(delivered + buf), delivered + buf;
                && |after| == |before| + |data| && after[..|before|] == before
                && forall i :: 0 <= i < |data| ==> after[|before| + i] == data[i] ^ ks(old(position) + i)
    {
      hide FlushBuf;
      if FlushBuf(View()).1.Done? { WriteEnciphers(ks, View(), data); }
      hide Apply;
      var first := PollFlushBuf();
      if !first.Done? { return first; }
      buf := buf + data;
      var enciphered := Apply(ks, position, buf[..|data|]);
      position := position + |data|;
      assert buf == data && buf[..|data|] == data;
      buf := enciphered + buf[|data|..];
      assert buf == enciphered;
      var second := PollFlushBuf();
      if second.Failed? { return second; }
      return Done(|data|);
    }

    method PollFlush() returns (r: Poll)
      modifies this
      ensures (View(), r) == Flush(old(View()))
    {
      hide FlushBuf;
      var first := PollFlushBuf();
      if !first.Done? { return first; }
      if script == [] { return Pending; }
      var outcome := script[0];
      script := script[1..];
      match outcome
      case Accept(_) => r := Done(0);
      case Interrupt => r := Failed(Interrupted);
      case Wait => r := Pending;
      case Fail => r := Failed(Broken);
    }
  }

  // Runs of the writer

  datatype Op = WriteOp(data: seq<Octet>) | FlushOp

  function Do(ks: Keystream, s: State, op: Op): (State, Poll) {
    match op
    case WriteOp(data) => Write(ks, s, data)
    case FlushOp => Flush(s)
  }

  function Run(ks: Keystream, s: State, ops: seq<Op>): State
    decreases |ops|
  {
    if ops == [] then s else Run(ks, Do(ks, s, ops[0]).0, ops[1..])
  }

  /** The plaintext a call takes into the buffer: all of it, when the drain that comes first empties the buffer. */
  function Taken(s: State, op: Op): seq<Octet> {
    if op.WriteOp? && FlushBuf(s).1.Done? then op.data else []
  }

  function Appended(ks: Keystream, s: State, ops: seq<Op>): seq<Octet>
    decreases |ops|
  {
    if ops == [] then [] else Taken(s, ops[0]) + Appended(ks, Do(ks, s, ops[0]).0, ops[1..])
  }

  /** The plaintext whose writes returned Ok. */
  function Acknowledged(ks: Keystream, s: State, ops: seq<Op>): seq<Octet>
    decreases |ops|
  {
    if ops == [] then []
    else
      var (next, poll) := Do(ks, s, ops[0]);
      (if ops[0].WriteOp? && poll.Done? then ops[0].data else []) + Acknowledged(ks, next, ops[1..])
  }

  /**
   * `start` was delivered before the writer existed; after it come the bytes of `plain`, each enciphered at its
   * own offset.
   */
  ghost predicate OnWire(ks: Keystream, start: seq<Octet>, s: State, plain: seq<Octet>) {
    s.position == |plain| && start <= s.delivered && s.delivered + s.buf == start + Apply(ks, 0, plain)
  }

  lemma FlushKeeps(ks: Keystream, start: seq<Octet>, s: State, plain: seq<Octet>)
    requires OnWire(ks, start, s, plain)
    ensures OnWire(ks, start, FlushBuf(s).0, plain)
  {
    hide FlushBuf, Apply;
    FlushConserves(s);
  }

  lemma EnciphersAtOffset(ks: Keystream, start: seq<Octet>, s: State, plain: seq<Octet>, data: seq<Octet>)
    requires OnWire(ks, start, s, plain) && s.buf == []
    ensures OnWire(ks, start, s.(buf := Apply(ks, s.position, data), position := s.position + |data|), plain + data)
  {
    ApplySplit(ks, 0, plain, data);
    hide Apply;
    var cipher := Apply(ks, s.position, data);
    calc {
      s.delivered + cipher;
      == { assert s.delivered + [] == s.delivered; }
      start + Apply(ks, 0, plain) + cipher;
      ==
      start + (Apply(ks, 0, plain) + cipher);
      ==
      start + Apply(ks, 0, plain + data);
    }
  }

  lemma StepKeeps(ks: Keystream, start: seq<Octet>, s: State, plain: seq<Octet>, op: Op)
    requires OnWire(ks, start, s, plain)
    ensures OnWire(ks, start, Do(ks, s, op).0, plain + Taken(s, op))
  {
    hide FlushBuf, Apply;
    FlushKeeps(ks, start, s, plain);
    assert plain + [] == plain;
    var s1 := FlushBuf(s).0;
    if op.WriteOp? && FlushBuf(s).1.Done? {
      EnciphersAtOffset(ks, start, s1, plain, op.data);
      var s2 := s1.(buf := Apply(ks, s1.position, op.data), position := s1.position + |op.data|);
      FlushKeeps(ks, start, s2, plain + op.data);
    }
  }

  /**
   * Whatever the calls and whatever the socket answers, the wire carries the keystream applied once to the
   * appended bytes.
   */
  lemma {:induction false} EveryByteEncipheredOnce(ks: Keystream, start: seq<Octet>, s: State,
                      plain: seq<Octet>, ops: seq<Op>)
    requires OnWire(ks, start, s, plain)
    ensures OnWire(ks, start, Run(ks, s, ops), plain + Appended(ks, s, ops))
    decreases |ops|
  {
    hide Do, Taken, OnWire;
    assert plain + [] == plain;
    if ops != [] {
      var next := Do(ks, s, ops[0]).0;
      StepKeeps(ks, start, s, plain, ops[0]);
      EveryByteEncipheredOnce(ks, start, next, plain + Taken(s, ops[0]), ops[1..]);
      assert plain + Taken(s, ops[0]) + Appended(ks, next, ops[1..]) == plain + Appended(ks, s, ops);
    }
  }

  /**
   * Byte for byte, in every run: what has been delivered or is in the buffer, after what was there at the start, is
   * the appended plaintext exclusive-ored with the keystream, each byte at its own offset.
   */
  lemma WireIsXorOfPlaintext(ks: Keystream, start: seq<Octet>, s: State, plain: seq<Octet>, ops: seq<Op>, i: nat)
    requires OnWire(ks, start, s, plain) && i < |plain + Appended(ks, s, ops)|
    ensures var t := Run(ks, s, ops);
            var wire := t.delivered + t.buf;
            && |wire| == |start| + |plain + Appended(ks, s, ops)|
            && wire[..|start|] == start
            && wire[|start| + i] == (plain + Appended(ks, s, ops))[i] ^ ks(i)
  {
    EveryByteEncipheredOnce(ks, start, s, plain, ops);
    hide Run, Appended;
  }

  // When a drain fails, told by the socket's answers

  /** An answer after which a drain goes on. */
  predicate Onward(o: Outcome) {
    o.Interrupt? || (o.Accept? && o.n > 0)
  }

  /** How many bytes a script's answers make room for. */
  function Room(script: seq<Outcome>): nat {
    if script == [] then 0 else (if script[0].Accept? then script[0].n else 0) + Room(script[1..])
  }

  /**
   * Answer `k` is an error, and a drain of `len` bytes gets to it: all answers before let it go on, without room
   * for all.
   */
  ghost predicate BreaksAt(script: seq<Outcome>, len: nat, k: nat) {
    && k < |script| && (script[k].Fail? || script[k] == Accept(0))
    && (forall i :: 0 <= i < k ==> Onward(script[i]))
    && Room(script[..k]) < len
  }

  /** The first `k` answers, and no fewer, let a drain of `len` bytes go on until there is room for all. */
  ghost predicate DrainsBy(script: seq<Outcome>, len: nat, k: nat) {
    && k <= |script|
    && (forall i :: 0 <= i < k ==> Onward(script[i]))
    && Room(script[..k]) >= len
    && (k > 0 ==> Room(script[..k - 1]) < len)
  }

  /** What is left of `len` bytes after an answer. */
  function Left(o: Outcome, len: nat): nat {
    if o.Accept? then len - Min(o.n, len) else len
  }

  /** One answer that lets the drain go on, and the rest of the script. */
  lemma OneAnswer(script: seq<Outcome>, len: nat, k: nat)
    requires script != [] && Onward(script[0]) && len > 0
    ensures BreaksAt(script, len, k + 1) <==> BreaksAt(script[1..], Left(script[0], len), k)
    ensures DrainsBy(script, len, k + 1) <==> DrainsBy(script[1..], Left(script[0], len), k)
  {
    var rest := script[1..];
    if k < |script| {
      assert script[..k + 1][1..] == rest[..k];
      if k > 0 { assert script[..k][1..] == rest[..k - 1]; }
      assert forall i :: 0 <= i < k ==> rest[i] == script[i + 1];
    }
    assert Room(script[..0]) == 0 && Room(rest[..0]) == 0;
  }

  ghost predicate Breaks(script: seq<Outcome>, len: nat) {
    exists k: nat :: BreaksAt(script, len, k)
  }

  ghost predicate Drains(script: seq<Outcome>, len: nat) {
    exists k: nat :: DrainsBy(script, len, k)
  }

  lemma FirstAnswer(script: seq<Outcome>, len: nat)
    requires len > 0
    ensures !DrainsBy(script, len, 0)
    ensures BreaksAt(script, len, 0) <==> script != [] && (script[0].Fail? || script[0] == Accept(0))
    ensures forall k: nat :: k > 0 && (BreaksAt(script, len, k) || DrainsBy(script, len, k)) ==>
                  script != [] && Onward(script[0])
  {
    assert script[..0] == [];
  }

  lemma OneAnswerLess(script: seq<Outcome>, len: nat)
    requires len > 0 && script != [] && Onward(script[0])
    ensures Breaks(script, len) <==> Breaks(script[1..], Left(script[0], len))
    ensures Drains(script, len) <==> Drains(script[1..], Left(script[0], len))
    ensures forall k: nat :: DrainsBy(script, len, k) ==> k > 0 && DrainsBy(script[1..], Left(script[0], len), k - 1)
  {
    hide BreaksAt, DrainsBy, Left;
    FirstAnswer(script, len);
    var left := Left(script[0], len);
    if k: nat :| BreaksAt(script, len, k) { OneAnswer(script, len, k - 1); }
    if k: nat :| BreaksAt(script[1..], left, k) { OneAnswer(script, len, k); }
    if k: nat :| DrainsBy(script[1..], left, k) { OneAnswer(script, len, k); }
    forall k: nat | DrainsBy(script, len, k) ensures k > 0 && DrainsBy(script[1..], left, k - 1) {
      OneAnswer(script, len, k - 1);
    }
  }

  lemma NothingToDrain(script: seq<Outcome>)
    ensures !Breaks(script, 0) && DrainsBy(script, 0, 0) && Drains(script, 0)
    ensures forall k: nat :: DrainsBy(script, 0, k) ==> k == 0
  {
    assert script[..0] == [];
    assert DrainsBy(script, 0, 0);
  }

  /** A drain fails, and succeeds, exactly when the socket's answers say so; a success uses up the answers it needs. */
  lemma {:induction false} DrainIsDecidedByAnswers(s: State)
    ensures FlushBuf(s).1.Failed? <==> Breaks(s.script, |s.buf|)
    ensures FlushBuf(s).1.Done? <==> Drains(s.script, |s.buf|)
    ensures forall k: nat :: DrainsBy(s.script, |s.buf|, k) ==> k <= |s.script| && FlushBuf(s).0.script == s.script[k..]
    decreases |s.script|
  {
    hide Breaks, Drains, BreaksAt, DrainsBy;
    if s.buf == [] {
      NothingToDrain(s.script);
    } else if s.script == [] || !Onward(s.script[0]) {
      StopsAtOnce(s.script, |s.buf|);
    } else {
      OneAnswerLess(s.script, |s.buf|);
      var next := s.(script := s.script[1..]);
      var k := if s.script[0].Accept? then Min(s.script[0].n, |s.buf|) else 0;
      var later := next.(buf := s.buf[k..], delivered := s.delivered + s.buf[..k]);
      assert s.script[0].Interrupt? ==> later == next by { assert s.buf[0..] == s.buf && s.buf[..0] == []; }
      DrainIsDecidedByAnswers(later);
      if |later.buf| == 0 { NothingToDrain(later.script); }
      assert FlushBuf(s) == FlushBuf(later);
      forall j: nat | DrainsBy(s.script, |s.buf|, j) ensures j <= |s.script| && FlushBuf(s).0.script == s.script[j..] {
        assert DrainsBy(later.script, |later.buf|, j - 1);
        assert later.script[j - 1..] == s.script[j..];
      }
    }
  }

  /**
   * A flush succeeds if and only if the socket makes room for all that is buffered and then accepts to be flushed;
   * everything is then on the wire.
   */
  lemma FlushIsDecidedByAnswers(s: State)
    ensures Flush(s).1.Done? <==>
            exists k: nat :: DrainsBy(s.script, |s.buf|, k) && k < |s.script| && s.script[k].Accept?
    ensures Flush(s).1.Done? ==> Flush(s).0.buf == [] && Flush(s).0.delivered == s.delivered + s.buf
    ensures forall k: nat :: DrainsBy(s.script, |s.buf|, k) && k < |s.script| ==> Flush(s).0.script == s.script[k + 1..]
    ensures Flush(s).1.Failed? <==>
            || Breaks(s.script, |s.buf|)
            || exists k: nat :: DrainsBy(s.script, |s.buf|, k) && k < |s.script|
                                && (s.script[k].Interrupt? || s.script[k].Fail?)
  {
    DrainIsDecidedByAnswers(s);
    FlushConserves(s);
    hide FlushBuf, DrainsBy, Breaks;
    var t := FlushBuf(s).0;
    if FlushBuf(s).1.Done? {
      var k: nat :| DrainsBy(s.script, |s.buf|, k);
      assert t.script == s.script[k..];
      assert t.delivered + [] == t.delivered;
    }
  }

  lemma StopsAtOnce(script: seq<Outcome>, len: nat)
    requires len > 0 && (script == [] || !Onward(script[0]))
    ensures Breaks(script, len) <==> script != [] && !script[0].Wait?
    ensures !Drains(script, len) && forall k: nat :: !DrainsBy(script, len, k)
  {
    FirstAnswer(script, len);
    if script != [] && !script[0].Wait? { assert BreaksAt(script, len, 0); }
  }

  /**
   * The socket lets the buffered bytes go, so the write takes its data, and then answers with an error before
   * all of it.
   */
  ghost predicate TakenButFailed(s: State, op: Op) {
    && op.WriteOp? && op.data != []
    && exists k: nat :: DrainsBy(s.script, |s.buf|, k) && Breaks(s.script[k..], |op.data|)
  }

  ghost predicate SomeTakenButFailed(ks: Keystream, s: State, ops: seq<Op>)
    decreases |ops|
  {
    ops != [] && (TakenButFailed(s, ops[0]) || SomeTakenButFailed(ks, Do(ks, s, ops[0]).0, ops[1..]))
  }

  /** A write that takes its bytes fails exactly when the socket's later answers break the second drain. */
  lemma SecondDrainFails(ks: Keystream, s: State, data: seq<Octet>)
    requires data != [] && FlushBuf(s).1.Done?
    ensures Write(ks, s, data).1.Failed? <==> TakenButFailed(s, WriteOp(data))
  {
    hide FlushBuf, Apply, DrainsBy, Breaks;
    var s1 := FlushBuf(s).0;
    DrainIsDecidedByAnswers(s);
    DrainIsDecidedByAnswers(s1.(buf := Apply(ks, s1.position, data), position := s1.position + |data|));
    assert exists k: nat :: DrainsBy(s.script, |s.buf|, k);
  }

  lemma OneCallAcknowledges(ks: Keystream, s: State, op: Op)
    ensures var acked := if op.WriteOp? && Do(ks, s, op).1.Done? then op.data else [];
            if TakenButFailed(s, op) then |acked| < |Taken(s, op)| else acked == Taken(s, op)
  {
    hide FlushBuf, Apply, TakenButFailed;
    if op.WriteOp? && op.data != [] {
      NotTaken(s, op);
      if FlushBuf(s).1.Done? { SecondDrainFails(ks, s, op.data); }
    } else {
      NotWritten(s, op);
    }
  }

  lemma NotTaken(s: State, op: Op)
    ensures TakenButFailed(s, op) ==> FlushBuf(s).1.Done?
  {
    hide FlushBuf, DrainsBy, Breaks;
    DrainIsDecidedByAnswers(s);
  }

  lemma NotWritten(s: State, op: Op)
    requires !op.WriteOp? || op.data == []
    ensures !TakenButFailed(s, op)
  {
  }

  /** The bytes on the wire are the acknowledged ones exactly when no socket error meets a write's second drain. */
  lemma {:induction false} AcknowledgedIffNoneTakenButFailed(ks: Keystream, s: State, ops: seq<Op>)
    ensures |Acknowledged(ks, s, ops)| <= |Appended(ks, s, ops)|
    ensures Acknowledged(ks, s, ops) == Appended(ks, s, ops) <==> !SomeTakenButFailed(ks, s, ops)
    decreases |ops|
  {
    hide Do, Taken, TakenButFailed;
    if ops != [] {
      var (next, poll) := Do(ks, s, ops[0]);
      OneCallAcknowledges(ks, s, ops[0]);
      AcknowledgedIffNoneTakenButFailed(ks, next, ops[1..]);
      var acked := if ops[0].WriteOp? && poll.Done? then ops[0].data else [];
      var a, b := Acknowledged(ks, next, ops[1..]), Appended(ks, next, ops[1..]);
      if !TakenButFailed(s, ops[0]) {
        assert (acked + a)[|acked|..] == a && (acked + b)[|acked|..] == b;
      }
    }
  }

  /** One byte written into a socket that breaks at once: an error, and the byte is in the buffer. */
  lemma FailedWriteStaysOnWire(ks: Keystream)
    ensures var s := State([], 0, [], [Fail]);
            && Write(ks, s, [7]).1 == Failed(Broken)
            && Write(ks, s, [7]).0 == State(Apply(ks, 0, [7]), 1, [], [])
            && Acknowledged(ks, s, [WriteOp([7])]) != Appended(ks, s, [WriteOp([7])])
  {
    var s := State([], 0, [], [Fail]);
    assert FlushBuf(s) == (s, Done(0));
    NothingToDrain(s.script);
    assert s.script[0..] == s.script;
    StopsAtOnce(s.script, 1);
    assert TakenButFailed(s, WriteOp([7]));
    AcknowledgedIffNoneTakenButFailed(ks, s, [WriteOp([7])]);
  }

  // The reader

  /** What a poll of the socket for reading answers. */
  datatype Arrival = Give(n: nat) | NotYet | Lost

  datatype Reader = Reader(position: nat, incoming: seq<Octet>)

  /** The number of bytes that a poll with room for `size` bytes moves. */
  function Moved(r: Reader, size: nat, arrival: Arrival): (k: nat)
    ensures k <= |r.incoming| && k <= size
    ensures arrival.Give? ==> k <= arrival.n && (k == arrival.n || k == size || k == |r.incoming|)
    ensures !arrival.Give? ==> k == 0
  {
    if arrival.Give? then Min(arrival.n, Min(size, |r.incoming|)) else 0
  }

  function After(r: Reader, k: nat): Reader
    requires k <= |r.incoming|
  {
    Reader(r.position + k, r.incoming[k..])
  }

  function ReadAll(ks: Keystream, r: Reader, polls: seq<(nat, Arrival)>): seq<Octet>
    decreases |polls|
  {
    if polls == [] then []
    else
      var k := Moved(r, polls[0].0, polls[0].1);
      Apply(ks, r.position, r.incoming[..k]) + ReadAll(ks, After(r, k), polls[1..])
  }

  /** The socket's copy into the caller's buffer. */
  method Receive(buf: array<Octet>, data: seq<Octet>)
    requires |data| <= buf.Length
    modifies buf
    ensures buf[..|data|] == data && buf[|data|..] == old(buf[|data|..])
  {
    for i := 0 to |data|
      invariant buf[..i] == data[..i] && buf[|data|..] == old(buf[|data|..])
    {
      buf[i] := data[i];
    }
  }

  /** The cipher, in place on the first `k` bytes. */
  method ApplyKeystream(ks: Keystream, at: nat, buf: array<Octet>, k: nat)
    requires k <= buf.Length
    modifies buf
    ensures buf[..k] == Apply(ks, at, old(buf[..k])) && buf[k..] == old(buf[k..])
  {
    for i := 0 to k
      invariant forall j :: 0 <= j < i ==> buf[j] == old(buf[j]) ^ ks(at + j)
      invariant forall j :: i <= j < buf.Length ==> buf[j] == old(buf[j])
    {
      buf[i] := buf[i] ^ ks(at + i);
    }
  }

  class PnetReader {
    const ks: Keystream
    var position: nat
    var incoming: seq<Octet>

    ghost function View(): Reader
      reads this
    {
      Reader(position, incoming)
    }

    constructor (ks: Keystream, incoming: seq<Octet>)
      ensures this.ks == ks && View() == Reader(0, incoming)
    {
      this.ks, this.position, this.incoming := ks, 0, incoming;
    }

    /** Fills the front of `buf` from the socket and deciphers it in place; the rest of `buf` is left alone. */
    method PollRead(buf: array<Octet>, arrival: Arrival) returns (r: Poll)
      modifies this, buf
      ensures var k := Moved(old(View()), buf.Length, arrival);
              && View() == After(old(View()), k)
              && buf[..k] == Apply(ks, old(position), old(incoming)[..k])
              && (forall i :: 0 <= i < k ==> buf[i] == old(incoming)[i] ^ ks(old(position) + i))
              && buf[k..] == old(buf[k..])
              && r == if arrival.Give? then Done(k) else if arrival.NotYet? then Pending else Failed(Broken)
    {
      if arrival.NotYet? { return Pending; }
      if arrival.Lost? { return Failed(Broken); }
      var k := Min(arrival.n, Min(buf.Length, |incoming|));
      Receive(buf, incoming[..k]);
      ApplyKeystream(ks, position, buf, k);
      incoming, position := incoming[k..], position + k;
      return Done(k);
    }
  }

  /** However the bytes are cut up, reading deciphers a prefix of what arrived. */
  lemma {:induction false} ReadsDecipher(ks: Keystream, r: Reader, polls: seq<(nat, Arrival)>)
    ensures var out := ReadAll(ks, r, polls);
            |out| <= |r.incoming| && out == Apply(ks, r.position, r.incoming[..|out|])
    decreases |polls|
  {
    assert Apply(ks, r.position, r.incoming[..0]) == [];
    hide Apply;
    if polls != [] {
      var k := Moved(r, polls[0].0, polls[0].1);
      ReadsDecipher(ks, After(r, k), polls[1..]);
      OneMoreRead(ks, r, k, ReadAll(ks, After(r, k), polls[1..]));
    }
  }

  lemma OneMoreRead(ks: Keystream, r: Reader, k: nat, later: seq<Octet>)
    requires k <= |r.incoming| && |later| <= |r.incoming| - k
    requires later == Apply(ks, r.position + k, r.incoming[k..][..|later|])
    ensures var out := Apply(ks, r.position, r.incoming[..k]) + later;
            |out| <= |r.incoming| && out == Apply(ks, r.position, r.incoming[..|out|])
  {
    ApplySplit(ks, r.position, r.incoming[..k], r.incoming[k..][..|later|]);
    hide Apply;
    assert r.incoming[..k] + r.incoming[k..][..|later|] == r.incoming[..k + |later|];
    assert |Apply(ks, r.position, r.incoming[..k])| == k;
  }

  /** Byte for byte: whatever the sizes of the reads, each byte read is the arrived one exclusive-ored at its offset. */
  lemma ReadsXor(ks: Keystream, r: Reader, polls: seq<(nat, Arrival)>, i: nat)
    requires i < |ReadAll(ks, r, polls)|
    ensures i < |r.incoming| && ReadAll(ks, r, polls)[i] == r.incoming[i] ^ ks(r.position + i)
  {
    ReadsDecipher(ks, r, polls);
    hide ReadAll;
  }

  // The handshake

  const NONCE_SIZE := 24

  /** The keystream of a key and a nonce; XSalsa20 in the program. */
  type Cipher = (seq<Octet>, seq<Octet>) -> Keystream

  datatype Session = NoSession | Session(writeStream: Keystream, readStream: Keystream, unread: seq<Octet>)

  /** Sends the local nonce, reads the remote one, and keys each direction by its sender's nonce. */
  function Handshake(cipher: Cipher, key: seq<Octet>, local: seq<Octet>, sent: bool, incoming: seq<Octet>): Session {
    if !sent || |incoming| < NONCE_SIZE then NoSession
    else Session(cipher(key, local), cipher(key, incoming[..NONCE_SIZE]), incoming[NONCE_SIZE..])
  }

  lemma ApplyPrefix(ks: Keystream, at: nat, data: seq<Octet>, n: nat)
    requires n <= |data|
    ensures Apply(ks, at, data)[..n] == Apply(ks, at, data[..n])
  {
  }

  /**
   * Two ends with the same key exchange nonces.  The first then writes with the stream its handshake gave it, any
   * calls over any socket; the second has received some prefix of what was delivered.  The second's handshake
   * succeeds once the nonce is there, and whatever the sizes of its reads they yield a prefix of the appended
   * plaintext: all of it when the buffer is drained, everything delivered has arrived and all of that is read.
   */
  lemma PeerReadsAPrefix(cipher: Cipher, key: seq<Octet>, nonce: seq<Octet>, answer: seq<Octet>, local: seq<Octet>,
                         script: seq<Outcome>, ops: seq<Op>, arrived: seq<Octet>, polls: seq<(nat, Arrival)>)
    requires |nonce| == NONCE_SIZE && NONCE_SIZE <= |arrived| && NONCE_SIZE <= |answer|
    requires var writer := Handshake(cipher, key, nonce, true, answer);
             writer.Session? ==> arrived <= Run(writer.writeStream, State([], 0, nonce, script), ops).delivered
    ensures var writer := Handshake(cipher, key, nonce, true, answer);
            var session := Handshake(cipher, key, local, true, arrived);
            && writer.Session? && session.Session?
            && var ks := writer.writeStream;
            && var s := State([], 0, nonce, script);
            && var out := ReadAll(session.readStream, Reader(0, session.unread), polls);
            && out <= Appended(ks, s, ops)
            && (Run(ks, s, ops).buf == [] && arrived == Run(ks, s, ops).delivered && |out| == |session.unread|
                ==> out == Appended(ks, s, ops))
  {
    var ks := cipher(key, nonce);
    var s := State([], 0, nonce, script);
    assert OnWire(ks, nonce, s, []);
    EveryByteEncipheredOnce(ks, nonce, s, [], ops);
    var plain := Appended(ks, s, ops);
    assert [] + plain == plain;
    hide Appended, Run;
    var end := Run(ks, s, ops);
    var wire := nonce + Apply(ks, 0, plain);
    assert arrived <= wire;
    assert arrived[..NONCE_SIZE] == wire[..NONCE_SIZE] == nonce;
    var unread := arrived[NONCE_SIZE..];
    assert unread == wire[NONCE_SIZE..][..|unread|] && wire[NONCE_SIZE..] == Apply(ks, 0, plain);
    ApplyPrefix(ks, 0, plain, |unread|);
    ReadsDecipher(ks, Reader(0, unread), polls);
    var out := ReadAll(ks, Reader(0, unread), polls);
    ApplyPrefix(ks, 0, plain[..|unread|], |out|);
    assert plain[..|unread|][..|out|] == plain[..|out|];
    ApplyTwice(ks, 0, plain[..|out|]);
    if end.buf == [] && arrived == end.delivered && |out| == |unread| {
      assert end.delivered + [] == end.delivered;
      assert |unread| == |plain|;
      assert plain[..|plain|] == plain;
    }
  }
}
