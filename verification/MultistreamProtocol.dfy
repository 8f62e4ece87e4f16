/** The messages of multistream-select 1.0.0 and their byte form. */
module MultistreamProtocol {
  import opened Bytes
  import Varint
  import LengthDelimited

  const MAX_PROTOCOLS: nat := 1000
  const MAX_PROTOCOL_LEN: nat := 140
  const SLASH: Byte := 47
  const NEWLINE: Byte := 10

  /** "/multistream/1.0.0" */
  const HEADER_NAME: seq<Byte> :=
    [47, 109, 117, 108, 116, 105, 115, 116, 114, 101, 97, 109, 47, 49, 46, 48, 46, 48]
  const MSG_MULTISTREAM_1_0: seq<Byte> := HEADER_NAME + [NEWLINE]
  const MSG_PROTOCOL_NA: seq<Byte> := [110, 97, NEWLINE]
  const MSG_LS: seq<Byte> := [108, 115, NEWLINE]

  datatype ProtocolError = Io(error: LengthDelimited.IoError) | InvalidVarint | InvalidMessage
      | InvalidProtocol | TooManyProtocols

  predicate IsName(s: seq<Byte>) {
    |s| > 0 && s[0] == SLASH && |s| <= MAX_PROTOCOL_LEN
  }

  /** A protocol name; only `TryFrom` makes one. */
  type Name = s: seq<Byte> | IsName(s) witness [SLASH]

  datatype Message =
    | Header
    | Protocol(name: Name)
    | ListProtocols
    | Protocols(names: seq<Name>)
    | NotAvailable

  function TryFrom(value: seq<Byte>): (r: Result<Name, ProtocolError>) {
    if IsName(value) then Ok(value) else Err(InvalidProtocol)
  }

  function Entry(p: Name): seq<Byte> {
    Varint.Encode(|p| + 1) + p + [NEWLINE]
  }

  function Entries(ps: seq<Name>): seq<Byte> {
    if ps == [] then [] else Entry(ps[0]) + Entries(ps[1..])
  }

  function Encode(m: Message): (s: seq<Byte>) {
    match m
    case Header => MSG_MULTISTREAM_1_0
    case Protocol(p) => p + [NEWLINE]
    case ListProtocols => MSG_LS
    case Protocols(ps) => Varint.Encode(|ps|) + Entries(ps)
    case NotAvailable => MSG_PROTOCOL_NA
  }

  /** One list entry: a length, a name, a newline. */
  function DecodeEntry(s: seq<Byte>): (r: Result<(Name, seq<Byte>), ProtocolError>)
    ensures r.Ok? ==> |r.value.1| + 3 <= |s|
  {
    match Varint.DecodeU64(s)
    case Value(len, rem) =>
      if len == 0 || len > |rem| || rem[len - 1] != NEWLINE then Err(InvalidMessage)
      else
        var p := TryFrom(rem[..len - 1]);
        if p.Err? then Err(p.error) else Ok((p.value, rem[len..]))
    case _ => Err(InvalidVarint)
  }

  function DecodeEntries(s: seq<Byte>, count: nat): (r: Result<seq<Name>, ProtocolError>)
    decreases count
  {
    if count == 0 then Ok([])
    else
      var e := DecodeEntry(s);
      if e.Err? then Err(e.error)
      else
        var later := DecodeEntries(e.value.1, count - 1);
        if later.Err? then later else Ok([e.value.0] + later.value)
  }

  /** A message that is neither a constant nor a single name. */
  function DecodeList(msg: seq<Byte>): Result<Message, ProtocolError> {
    match Varint.DecodeU64(msg)
    case Value(count, remaining) =>
      if count > MAX_PROTOCOLS then Err(TooManyProtocols)
      else
        var ps := DecodeEntries(remaining, count);
        if ps.Err? then Err(ps.error) else Ok(Protocols(ps.value))
    case _ => Err(InvalidVarint)
  }

  predicate LooksLikeName(msg: seq<Byte>) {
    0 < |msg| <= MAX_PROTOCOL_LEN && msg[0] == SLASH && msg[|msg| - 1] == NEWLINE
  }

  function Decode(msg: seq<Byte>): (r: Result<Message, ProtocolError>) {
    if msg == MSG_MULTISTREAM_1_0 then Ok(Header)
    else if LooksLikeName(msg) then
      var p := TryFrom(msg[..|msg| - 1]);
      if p.Err? then Err(p.error) else Ok(Protocol(p.value))
    else if msg == MSG_PROTOCOL_NA then Ok(NotAvailable)
    else if msg == MSG_LS then Ok(ListProtocols)
    else DecodeList(msg)
  }

  /** What survives the wire: of single names, those shorter than the limit and other than the header. */
  predicate Transmissible(m: Message) {
    match m
    case Protocol(p) => |p| < MAX_PROTOCOL_LEN && p != HEADER_NAME
    case Protocols(ps) => |ps| <= MAX_PROTOCOLS
    case _ => true
  }

  lemma DecodeEntryOf(p: Name, rest: seq<Byte>)
    ensures DecodeEntry(Entry(p) + rest) == Ok((p, rest))
  {
    var rem := p + [NEWLINE] + rest;
    assert Entry(p) + rest == Varint.Encode(|p| + 1) + rem;
    Varint.RoundTrip(|p| + 1, rem);
    assert rem[..|p|] == p && rem[|p|] == NEWLINE && rem[|p| + 1..] == rest;
  }

  lemma DecodeEntriesCons(p: Name, rest: seq<Byte>, count: nat)
    requires DecodeEntries(rest, count).Ok?
    ensures DecodeEntries(Entry(p) + rest, count + 1) == Ok([p] + DecodeEntries(rest, count).value)
  {
    DecodeEntryOf(p, rest);
  }

  lemma {:induction false} DecodeEntriesOf(ps: seq<Name>)
    ensures DecodeEntries(Entries(ps), |ps|) == Ok(ps)
  {
    if ps != [] {
      DecodeEntriesOf(ps[1..]);
      DecodeEntriesCons(ps[0], Entries(ps[1..]), |ps| - 1);
      assert [ps[0]] + ps[1..] == ps;
    }
  }

  /** Every entry costs at least three bytes, in the encoder's output and in anything the decoder accepts. */
  lemma {:induction false} EntriesLength(ps: seq<Name>)
    ensures |Entries(ps)| >= 3 * |ps|
  {
    if ps != [] { EntriesLength(ps[1..]); }
  }

  lemma {:induction false} DecodedEntriesLength(s: seq<Byte>, count: nat)
    requires DecodeEntries(s, count).Ok?
    ensures |s| >= 3 * count
    decreases count
  {
    if count > 0 { DecodedEntriesLength(DecodeEntry(s).value.1, count - 1); }
  }

  /** A list is never taken for a constant or a single name: 47 names, whose count reads as `/`, are too long. */
  lemma ListIsUnambiguous(ps: seq<Name>)
    requires |ps| < Varint.U64
    ensures Decode(Encode(Protocols(ps))) == DecodeList(Encode(Protocols(ps)))
  {
    var s := Encode(Protocols(ps));
    EntriesLength(ps);
    assert s[0] == Varint.Encode(|ps|)[0];
    if |ps| < 128 {
      assert s[0] == |ps| && |s| >= 1 + 3 * |ps|;
    } else {
      assert s[0] >= 128;
    }
  }

  lemma ListRoundTrip(ps: seq<Name>)
    requires |ps| < Varint.U64
    ensures Decode(Encode(Protocols(ps))) ==
            if |ps| <= MAX_PROTOCOLS then Ok(Protocols(ps)) else Err(TooManyProtocols)
  {
    ListIsUnambiguous(ps);
    Varint.RoundTrip(|ps|, Entries(ps));
    DecodeEntriesOf(ps);
  }

  lemma NameRoundTrip(p: Name)
    requires |p| < MAX_PROTOCOL_LEN
    ensures Decode(Encode(Protocol(p))) == if p == HEADER_NAME then Ok(Header) else Ok(Protocol(p))
  {
    var s := Encode(Protocol(p));
    assert s[..|s| - 1] == p;
    assert MSG_MULTISTREAM_1_0[..18] == HEADER_NAME;
  }

  /** A name of the full 140 bytes is accepted by `TryFrom` and rejected by every decoder. */
  lemma LongestNameIsLost(p: seq<Byte>)
    requires |p| == MAX_PROTOCOL_LEN && p[0] == SLASH
    ensures TryFrom(p) == Ok(p) && Decode(Encode(Protocol(p))).Err?
  {
    var s := Encode(Protocol(p));
    assert s[0] == SLASH && Varint.DecodeU64(s) == Varint.Value(47, s[1..]);
    if Decode(s).Ok? {
      DecodedEntriesLength(s[1..], 47);
    }
  }

  /** Decoding undoes encoding on exactly the transmissible messages. */
  lemma RoundTrip(m: Message)
    requires m.Protocols? ==> |m.names| < Varint.U64
    ensures Decode(Encode(m)) == Ok(m) <==> Transmissible(m)
  {
    match m
    case Protocol(p) =>
      if |p| < MAX_PROTOCOL_LEN { NameRoundTrip(p); } else { LongestNameIsLost(p); }
    case Protocols(ps) => ListRoundTrip(ps);
    case _ =>
  }

  /** The part of `Message::encode` that lists names. */
  method EncodeList(ps: seq<Name>) returns (msg: seq<Byte>)
    ensures msg == Encode(Protocols(ps))
  {
    hide Varint.Encode, IsName;
    msg := Varint.Encode(|ps|);
    for i := 0 to |ps|
      invariant msg + Entries(ps[i..]) == Varint.Encode(|ps|) + Entries(ps)
    {
      assert Entries(ps[i..]) == Entry(ps[i]) + Entries(ps[i + 1..]) by { assert ps[i..][1..] == ps[i + 1..]; }
      var before := msg;
      msg := msg + Varint.Encode(|ps[i]| + 1);
      msg := msg + ps[i];
      msg := msg + [NEWLINE];
      assert msg == before + Entry(ps[i]);
    }
    assert msg + [] == msg;
  }

  /** `Message::encode`, which appends to a buffer. */
  method EncodeInto(m: Message, dest: seq<Byte>) returns (out: seq<Byte>)
    ensures out == dest + Encode(m)
  {
    match m
    case Header => out := dest + MSG_MULTISTREAM_1_0;
    case Protocol(p) =>
      out := dest + p;
      out := out + [NEWLINE];
    case ListProtocols => out := dest + MSG_LS;
    case Protocols(ps) =>
      var msg := EncodeList(ps);
      out := dest + msg;
    case NotAvailable => out := dest + MSG_PROTOCOL_NA;
  }

  /** One turn of the list loop. */
  method ReadEntry(remaining: seq<Byte>) returns (r: Result<(Name, seq<Byte>), ProtocolError>)
    ensures r == DecodeEntry(remaining)
  {
    hide Varint.DecodeU64;
    var d := Varint.DecodeU64(remaining);
    if !d.Value? { return Err(InvalidVarint); }
    var len, rem := d.n, d.rest;
    if len == 0 || len > |rem| || rem[len - 1] != NEWLINE { return Err(InvalidMessage); }
    var p := TryFrom(rem[..len - 1]);
    if p.Err? { return Err(p.error); }
    return Ok((p.value, rem[len..]));
  }

  /** `Message::decode`, with its loop over the list entries. */
  method DecodeMessage(msg: seq<Byte>) returns (r: Result<Message, ProtocolError>)
    ensures r == Decode(msg)
  {
    hide DecodeEntry, Varint.DecodeU64;
    if msg == MSG_MULTISTREAM_1_0 { return Ok(Header); }
    if LooksLikeName(msg) {
      var p := TryFrom(msg[..|msg| - 1]);
      return if p.Err? then Err(p.error) else Ok(Protocol(p.value));
    }
    if msg == MSG_PROTOCOL_NA { return Ok(NotAvailable); }
    if msg == MSG_LS { return Ok(ListProtocols); }
    var head := Varint.DecodeU64(msg);
    if !head.Value? { return Err(InvalidVarint); }
    var count, remaining := head.n, head.rest;
    if count > MAX_PROTOCOLS { return Err(TooManyProtocols); }
    var protocols: seq<Name> := [];
    ghost var all := DecodeEntries(remaining, count);
    assert all.Ok? ==> protocols + all.value == all.value;
    for i := 0 to count
      invariant var later := DecodeEntries(remaining, count - i);
                all == if later.Err? then later else Ok(protocols + later.value)
    {
      var entry := ReadEntry(remaining);
      if entry.Err? { return Err(entry.error); }
      var (p, rem) := entry.value;
      ghost var later := DecodeEntries(rem, count - i - 1);
      assert later.Ok? ==> protocols + ([p] + later.value) == protocols + [p] + later.value;
      protocols := protocols + [p];
      remaining := rem;
    }
    assert protocols + [] == protocols;
    return Ok(Protocols(protocols));
  }
}
