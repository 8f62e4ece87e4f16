/** Varint length-delimited frames over a byte stream. */
module LengthDelimited {
  import opened Bytes
  import Varint

  /** Two length bytes carry fourteen bits. */
  const MAX_FRAME_SIZE: nat := 16383

  datatype IoError = UnexpectedEof | VarintOverflow | FrameTooLong

  datatype Received = Received(frame: Result<seq<Byte>, IoError>, rest: seq<Byte>)

  function Frame(payload: seq<Byte>): (s: seq<Byte>) {
    Varint.Encode(|payload|) + payload
  }

  /** What reading one frame from `s` yields, and what it leaves unread. */
  function Receive(s: seq<Byte>): (r: Received)
    ensures r.frame.Ok? ==> |r.rest| < |s| && |r.frame.value| <= MAX_FRAME_SIZE
    ensures r.frame == Err(UnexpectedEof) ==> r.rest == []
    ensures |r.rest| <= |s|
  {
    match Varint.Scan(s, 2)
    case Insufficient => Received(Err(UnexpectedEof), [])
    case Overflow =>
      OverflowLength(s);
      Received(Err(VarintOverflow), s[3..])
    case Value(n, rest) =>
      var len := n % Varint.U16;
      if len > MAX_FRAME_SIZE then Received(Err(FrameTooLong), rest)
      else if len > |rest| then Received(Err(UnexpectedEof), [])
      else Received(Ok(rest[..len]), rest[len..])
  }

  lemma OverflowLength(s: seq<Byte>)
    requires Varint.Scan(s, 2).Overflow?
    ensures |s| >= 3
  {
    assert Varint.Scan(s[1..], 1).Overflow?;
    assert Varint.Scan(s[1..][1..], 0).Overflow?;
  }

  lemma FrontBack(a: seq<Byte>, b: seq<Byte>)
    ensures (a + b)[..|a|] == a && (a + b)[|a|..] == b
  {
  }

  lemma FrameScans(payload: seq<Byte>, rest: seq<Byte>)
    requires |payload| <= MAX_FRAME_SIZE
    ensures Varint.Scan(Frame(payload) + rest, 2) == Varint.Value(|payload|, payload + rest)
  {
    hide Varint.Scan, Varint.Encode;
    var n := |payload|;
    assert Frame(payload) + rest == Varint.Encode(n) + (payload + rest);
    Varint.Spans();
    Varint.ScanEncode(n, 2, payload + rest);
  }

  /** A frame is read back exactly, whatever follows it. */
  lemma ReceiveFrame(payload: seq<Byte>, rest: seq<Byte>)
    requires |payload| <= MAX_FRAME_SIZE
    ensures Receive(Frame(payload) + rest) == Received(Ok(payload), rest)
  {
    hide Varint.Scan, Frame;
    FrameScans(payload, rest);
    FrontBack(payload, rest);
    Varint.SmallMod(|payload|, Varint.U16);
  }

  /** A frame that has arrived is not affected by bytes that arrive later. */
  lemma ReceiveExtends(s: seq<Byte>, t: seq<Byte>)
    requires Receive(s).frame != Err(UnexpectedEof)
    ensures Receive(s + t) == Received(Receive(s).frame, Receive(s).rest + t)
  {
    Varint.ScanExtends(s, t, 2);
    if Varint.Scan(s, 2).Overflow? {
      OverflowLength(s);
      assert (s + t)[3..] == s[3..] + t;
    } else {
      var rest := Varint.Scan(s, 2).rest;
      var len := Varint.Scan(s, 2).n % Varint.U16;
      if len <= MAX_FRAME_SIZE {
        assert (rest + t)[..len] == rest[..len];
        assert (rest + t)[len..] == rest[len..] + t;
      }
    }
  }

  function Frames(payloads: seq<seq<Byte>>): (s: seq<Byte>) {
    if payloads == [] then [] else Frame(payloads[0]) + Frames(payloads[1..])
  }

  /** Reads `count` frames one after the other; an error ends the run. */
  function ReceiveMany(s: seq<Byte>, count: nat): (Result<seq<seq<Byte>>, IoError>, seq<Byte>)
    decreases count
  {
    if count == 0 then (Ok([]), s)
    else
      var r := Receive(s);
      if r.frame.Err? then (Err(r.frame.error), r.rest)
      else
        var (later, rest) := ReceiveMany(r.rest, count - 1);
        (if later.Ok? then Ok([r.frame.value] + later.value) else later, rest)
  }

  lemma ReceiveManyCons(head: seq<Byte>, later: seq<Byte>, count: nat)
    requires |head| <= MAX_FRAME_SIZE && ReceiveMany(later, count).0.Ok?
    ensures ReceiveMany(Frame(head) + later, count + 1)
         == (Ok([head] + ReceiveMany(later, count).0.value), ReceiveMany(later, count).1)
  {
    ReceiveFrame(head, later);
    hide Receive, Frame;
  }

  /** Any sequence of frames is read back in order, and exactly the trailing data stays unread. */
  lemma {:induction false} FramesRoundTrip(payloads: seq<seq<Byte>>, trailing: seq<Byte>)
    requires forall i :: 0 <= i < |payloads| ==> |payloads[i]| <= MAX_FRAME_SIZE
    ensures ReceiveMany(Frames(payloads) + trailing, |payloads|) == (Ok(payloads), trailing)
  {
    hide Receive, Frame;
    if payloads == [] {
      assert Frames(payloads) + trailing == trailing;
    } else {
      var later := Frames(payloads[1..]) + trailing;
      FramesRoundTrip(payloads[1..], trailing);
      ReceiveManyCons(payloads[0], later, |payloads| - 1);
      assert [payloads[0]] + payloads[1..] == payloads;
      assert Frames(payloads) + trailing == Frame(payloads[0]) + later;
      hide ReceiveMany, Frames;
    }
  }

  /** The framed resource; `incoming` and `outgoing` are the two directions of the inner stream. */
  class LengthDelimited {
    var incoming: seq<Byte>
    var outgoing: seq<Byte>
    var readBuffer: seq<Byte>
    var writeBuffer: seq<Byte>

    constructor (incoming: seq<Byte>)
      ensures this.incoming == incoming && outgoing == [] && readBuffer == [] && writeBuffer == []
    {
      this.incoming, outgoing, readBuffer, writeBuffer := incoming, [], [], [];
    }

    /** `read_exact` on the inner stream; at the end of the stream everything left is consumed. */
    method ReadExact(n: nat) returns (r: Result<seq<Byte>, IoError>)
      modifies this`incoming
      ensures n <= |old(incoming)| ==> r == Ok(old(incoming)[..n]) && incoming == old(incoming)[n..]
      ensures n > |old(incoming)| ==> r == Err(UnexpectedEof) && incoming == []
    {
      if n <= |incoming| {
        r := Ok(incoming[..n]);
        incoming := incoming[n..];
      } else {
        r := Err(UnexpectedEof);
        incoming := [];
      }
    }

    method ReadUnsignedVarint() returns (r: Result<nat, IoError>)
      modifies this`incoming
      ensures match Varint.Scan(old(incoming), 2)
              case Value(n, rest) => r == Ok(n % Varint.U16) && incoming == rest
              case Insufficient => r == Err(UnexpectedEof) && incoming == []
              case Overflow => r == Err(VarintOverflow) && |old(incoming)| >= 3 && incoming == old(incoming)[3..]
    {
      ghost var s := incoming;
      var b: seq<Byte> := [];
      for i := 0 to 3
        invariant i <= |s| && b == s[..i] && incoming == s[i..]
        invariant forall j :: 0 <= j < i ==> !Varint.IsLast(s[j])
      {
        var one := ReadExact(1);
        if one.Err? {
          if i > 0 { Varint.ScanStops(s, i - 1, 2); }
          return Err(UnexpectedEof);
        }
        Varint.ScanStops(s, i, 2);
        b := b + one.value;
        if Varint.IsLast(b[i]) {
          assert b == s[..i + 1];
          return Ok(Varint.DecodeU16(b).n);
        }
      }
      Varint.ScanStops(s, 2, 2);
      return Err(VarintOverflow);
    }

    method RecvMessage() returns (r: Result<seq<Byte>, IoError>)
      modifies this`incoming, this`readBuffer
      ensures Received(r, incoming) == Receive(old(incoming))
      ensures r.Ok? ==> readBuffer == []
    {
      var len := ReadUnsignedVarint();
      if len.Err? { return Err(len.error); }
      if len.value > MAX_FRAME_SIZE { return Err(FrameTooLong); }
      readBuffer := [];
      if len.value > 0 {
        var data := ReadExact(len.value);
        if data.Err? { return data; }
        readBuffer := data.value;
      }
      r := Ok(readBuffer);
      readBuffer := [];
    }

    method SendMessage(buf: seq<Byte>) returns (r: Result<(), IoError>)
      modifies this`outgoing, this`writeBuffer
      ensures |buf| > MAX_FRAME_SIZE ==> r == Err(FrameTooLong) && outgoing == old(outgoing)
      ensures |buf| <= MAX_FRAME_SIZE ==> r == Ok(()) && outgoing == old(outgoing) + Frame(buf)
    {
      if |buf| > MAX_FRAME_SIZE { return Err(FrameTooLong); }
      writeBuffer := [];
      writeBuffer := writeBuffer + Varint.Encode(|buf|);
      writeBuffer := writeBuffer + buf;
      outgoing := outgoing + writeBuffer;
      r := Ok(());
    }
  }
}
