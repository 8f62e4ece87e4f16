/** One component of a multiaddress and its byte form: a tag, then a payload whose extent the tag decides. */
module MultiaddrProtocol {
  import opened Bytes
  import Varint

  const DCCP := 33
  const DNS := 53
  const DNS4 := 54
  const DNS6 := 55
  const DNSADDR := 56
  const HTTP := 480
  const HTTPS := 443
  const IP4 := 4
  const IP6 := 41
  const P2P_WEBRTC_DIRECT := 276
  const P2P_WEBRTC_STAR := 275
  const P2P_WEBSOCKET_STAR := 479
  const MEMORY := 777
  const ONION := 444
  const ONION3 := 445
  const P2P := 421
  const P2P_CIRCUIT := 290
  const QUIC := 460
  const SCTP := 132
  const TCP := 6
  const UDP := 273
  const UDT := 301
  const UNIX := 400
  const UTP := 302
  const WS := 477
  const WS_WITH_PATH := 4770
  const WSS := 478
  const WSS_WITH_PATH := 4780

  /** No slice is longer than this. */
  const ISIZE_MAX := 0x7fff_ffff_ffff_ffff

  predicate Continuation(b: Byte) {
    0x80 <= b <= 0xbf
  }

  predicate ThreeByteStart(a: Byte, b: Byte) {
    || (a == 0xe0 && 0xa0 <= b <= 0xbf)
    || (0xe1 <= a <= 0xef && a != 0xed && Continuation(b))
    || (a == 0xed && 0x80 <= b <= 0x9f)
  }

  predicate FourByteStart(a: Byte, b: Byte) {
    || (a == 0xf0 && 0x90 <= b <= 0xbf)
    || (0xf1 <= a <= 0xf3 && Continuation(b))
    || (a == 0xf4 && 0x80 <= b <= 0x8f)
  }

  /** Well-formed UTF-8, by the syntax of section 4 of RFC 3629. */
  predicate ValidUtf8(s: seq<Byte>)
    decreases |s|
  {
    || s == []
    || (s[0] < 0x80 && ValidUtf8(s[1..]))
    || (|s| >= 2 && 0xc2 <= s[0] <= 0xdf && Continuation(s[1]) && ValidUtf8(s[2..]))
    || (|s| >= 3 && ThreeByteStart(s[0], s[1]) && Continuation(s[2]) && ValidUtf8(s[3..]))
    || (|s| >= 4 && FourByteStart(s[0], s[1]) && Continuation(s[2]) && Continuation(s[3]) && ValidUtf8(s[4..]))
  }

  type U16 = n: nat | n < Varint.U16
  type U64 = n: nat | n < Varint.U64
  type Text = s: seq<Byte> | |s| <= ISIZE_MAX && ValidUtf8(s) witness []
  type Ipv4Addr = s: seq<Byte> | |s| == 4 witness [0, 0, 0, 0]
  type Ipv6Addr = s: seq<U16> | |s| == 8 witness [0, 0, 0, 0, 0, 0, 0, 0]
  type OnionHash = s: seq<Byte> | |s| == 10 witness seq(10, _ => 0)
  type Onion3Hash = s: seq<Byte> | |s| == 35 witness seq(35, _ => 0)
  type Digest = s: seq<Byte> | |s| <= 64 witness []

  datatype Multihash = Multihash(code: U64, digest: Digest)

  datatype Protocol =
    | Dccp(port: U16)
    | Dns(name: Text)
    | Dns4(name: Text)
    | Dns6(name: Text)
    | Dnsaddr(name: Text)
    | Http
    | Https
    | Ip4(ip4: Ipv4Addr)
    | Ip6(ip6: Ipv6Addr)
    | P2pWebRtcDirect
    | P2pWebRtcStar
    | P2pWebSocketStar
    | Memory(id: U64)
    | Onion(hash: OnionHash, port: U16)
    | Onion3(hash3: Onion3Hash, port: U16)
    | P2p(peer: Multihash)
    | P2pCircuit
    | Quic
    | Sctp(port: U16)
    | Tcp(port: U16)
    | Udp(port: U16)
    | Udt
    | Unix(name: Text)
    | Utp
    | Ws(name: Text)
    | Wss(name: Text)

  datatype Error = DataLessThanLen | InvalidUvar | ParsingError | UnknownProtocolId(id: nat)

  // Integers, most significant byte first

  function BigEndian(n: nat, k: nat): (s: seq<Byte>)
    ensures |s| == k
  {
    if k == 0 then [] else BigEndian(n / 256, k - 1) + [n % 256]
  }

  function FromBigEndian(s: seq<Byte>): nat {
    if s == [] then 0 else 256 * FromBigEndian(s[..|s| - 1]) + s[|s| - 1]
  }

  function Range(k: nat): (p: nat)
    ensures p >= 1
  {
    if k == 0 then 1 else 256 * Range(k - 1)
  }

  lemma {:induction false} BigEndianRoundTrip(n: nat, k: nat)
    requires n < Range(k)
    ensures FromBigEndian(BigEndian(n, k)) == n
  {
    if k > 0 {
      BigEndianRoundTrip(n / 256, k - 1);
      var s := BigEndian(n, k);
      assert s[..k - 1] == BigEndian(n / 256, k - 1);
    }
  }

  lemma {:induction false} FromBigEndianBound(s: seq<Byte>)
    ensures FromBigEndian(s) < Range(|s|)
  {
    if s != [] { FromBigEndianBound(s[..|s| - 1]); }
  }

  lemma Ranges()
    ensures Range(2) == Varint.U16 && Range(8) == Varint.U64
  {
    assert Range(2) == 256 * Range(1) && Range(1) == 256;
    assert Range(4) == 256 * 256 * Range(2) by { assert Range(3) == 256 * Range(2); }
    assert Range(6) == 256 * 256 * Range(4) by { assert Range(5) == 256 * Range(4); }
    assert Range(8) == 256 * 256 * Range(6) by { assert Range(7) == 256 * Range(6); }
  }

  function ReadU16(s: seq<Byte>): U16
    requires |s| == 2
  {
    Ranges();
    FromBigEndianBound(s);
    FromBigEndian(s)
  }

  function ReadU64(s: seq<Byte>): U64
    requires |s| == 8
  {
    Ranges();
    FromBigEndianBound(s);
    FromBigEndian(s)
  }

  lemma ReadBack(n: nat)
    ensures n < Varint.U16 ==> ReadU16(BigEndian(n, 2)) == n
    ensures n < Varint.U64 ==> ReadU64(BigEndian(n, 8)) == n
  {
    Ranges();
    if n < Varint.U16 { BigEndianRoundTrip(n, 2); }
    if n < Varint.U64 { BigEndianRoundTrip(n, 8); }
  }

  function SegmentBytes(segments: seq<U16>): (s: seq<Byte>)
    ensures |s| == 2 * |segments|
  {
    if segments == [] then [] else BigEndian(segments[0], 2) + SegmentBytes(segments[1..])
  }

  function Segments(s: seq<Byte>): (r: seq<U16>)
    requires |s| % 2 == 0
    ensures |r| == |s| / 2
  {
    if s == [] then [] else [ReadU16(s[..2])] + Segments(s[2..])
  }

  lemma {:induction false} SegmentsRoundTrip(segments: seq<U16>)
    ensures Segments(SegmentBytes(segments)) == segments
  {
    if segments != [] {
      SegmentsRoundTrip(segments[1..]);
      ReadBack(segments[0]);
      var s := SegmentBytes(segments);
      assert s[..2] == BigEndian(segments[0], 2) && s[2..] == SegmentBytes(segments[1..]);
    }
  }

  // Multihashes

  function HashBytes(h: Multihash): seq<Byte> {
    Varint.Encode(h.code) + Varint.Encode(|h.digest|) + h.digest
  }

  function HashFromBytes(s: seq<Byte>): Option<Multihash> {
    match Varint.DecodeU64(s)
    case Insufficient => None
    case Overflow => None
    case Value(code, afterCode) =>
      match Varint.DecodeU64(afterCode)
      case Insufficient => None
      case Overflow => None
      case Value(size, digest) =>
        if size <= 64 && |digest| == size then Some(Multihash(code, digest)) else None
  }

  lemma HashRoundTrip(h: Multihash)
    ensures HashFromBytes(HashBytes(h)) == Some(h)
  {
    hide Varint.Decode, Varint.Encode;
    var afterCode := Varint.Encode(|h.digest|) + h.digest;
    assert HashBytes(h) == Varint.Encode(h.code) + afterCode;
    Varint.RoundTrip(h.code, afterCode);
    Varint.RoundTrip(|h.digest|, h.digest);
  }

  lemma {:induction false} EncodeLength(n: nat, groups: nat)
    requires n < Varint.Span(groups) && groups > 0
    ensures |Varint.Encode(n)| <= groups
  {
    if n >= 128 {
      assert Varint.Span(1) == 128 by { assert Varint.Span(0) == 1; }
      EncodeLength(n / 128, groups - 1);
    }
  }

  lemma HashLength(h: Multihash)
    ensures |HashBytes(h)| <= 76
  {
    Varint.Spans();
    EncodeLength(h.code, 10);
    assert |h.digest| < 16384;
  }

  // Tags and payloads

  /** How far the payload of a tag extends: a number of bytes, or a length that comes first. */
  datatype Extent = Fixed(n: nat) | Sized | Unknown

  function ExtentOf(code: nat): Extent {
    if code == DCCP || code == SCTP || code == TCP || code == UDP then Fixed(2)
    else if code == IP4 then Fixed(4)
    else if code == IP6 then Fixed(16)
    else if code == MEMORY then Fixed(8)
    else if code == ONION then Fixed(12)
    else if code == ONION3 then Fixed(37)
    else if HasNoPayload(code) then Fixed(0)
    else if IsSized(code) then Sized
    else Unknown
  }

  predicate HasNoPayload(code: nat) {
    || code == HTTP || code == HTTPS || code == P2P_WEBRTC_DIRECT || code == P2P_WEBRTC_STAR
    || code == P2P_WEBSOCKET_STAR || code == P2P_CIRCUIT || code == QUIC || code == UDT || code == UTP
    || code == WS || code == WSS
  }

  predicate IsSized(code: nat) {
    || code == DNS || code == DNS4 || code == DNS6 || code == DNSADDR || code == UNIX || code == P2P
    || code == WS_WITH_PATH || code == WSS_WITH_PATH
  }

  /** "/" */
  const ROOT: seq<Byte> := [47]

  function RootPath(): Text {
    assert ValidUtf8(ROOT[1..]);
    ROOT
  }

  function TextOf(data: seq<Byte>, make: Text -> Protocol): Result<Protocol, Error> {
    if |data| <= ISIZE_MAX && ValidUtf8(data) then Ok(make(data)) else Err(ParsingError)
  }

  /** The component of a tag and its payload. */
  function Build(code: nat, data: seq<Byte>): Result<Protocol, Error>
    requires ExtentOf(code).Fixed? ==> |data| == ExtentOf(code).n
  {
    if code == DCCP then Ok(Dccp(ReadU16(data)))
    else if code == DNS then TextOf(data, (s: Text) => Dns(s))
    else if code == DNS4 then TextOf(data, (s: Text) => Dns4(s))
    else if code == DNS6 then TextOf(data, (s: Text) => Dns6(s))
    else if code == DNSADDR then TextOf(data, (s: Text) => Dnsaddr(s))
    else if code == HTTP then Ok(Http)
    else if code == HTTPS then Ok(Https)
    else if code == IP4 then Ok(Ip4(data))
    else if code == IP6 then Ok(Ip6(Segments(data)))
    else if code == P2P_WEBRTC_DIRECT then Ok(P2pWebRtcDirect)
    else if code == P2P_WEBRTC_STAR then Ok(P2pWebRtcStar)
    else if code == P2P_WEBSOCKET_STAR then Ok(P2pWebSocketStar)
    else if code == MEMORY then Ok(Memory(ReadU64(data)))
    else if code == ONION then Ok(Onion(data[..10], ReadU16(data[10..])))
    else if code == ONION3 then Ok(Onion3(data[..35], ReadU16(data[35..])))
    else if code == P2P then
      match HashFromBytes(data)
      case None => Err(ParsingError)
      case Some(h) => Ok(P2p(h))
    else if code == P2P_CIRCUIT then Ok(P2pCircuit)
    else if code == QUIC then Ok(Quic)
    else if code == SCTP then Ok(Sctp(ReadU16(data)))
    else if code == TCP then Ok(Tcp(ReadU16(data)))
    else if code == UDP then Ok(Udp(ReadU16(data)))
    else if code == UDT then Ok(Udt)
    else if code == UNIX then TextOf(data, (s: Text) => Unix(s))
    else if code == UTP then Ok(Utp)
    else if code == WS then Ok(Ws(RootPath()))
    else if code == WS_WITH_PATH then TextOf(data, (s: Text) => Ws(s))
    else if code == WSS then Ok(Wss(RootPath()))
    else if code == WSS_WITH_PATH then TextOf(data, (s: Text) => Wss(s))
    else Err(UnknownProtocolId(code))
  }

  function SplitAt(n: nat, input: seq<Byte>): (r: Result<(seq<Byte>, seq<Byte>), Error>)
    ensures r.Ok? ==> input == r.value.0 + r.value.1 && |r.value.0| == n
  {
    if |input| < n then Err(DataLessThanLen) else Ok((input[..n], input[n..]))
  }

  function Payload(code: nat, input: seq<Byte>): (r: Result<(seq<Byte>, seq<Byte>), Error>)
    ensures r.Ok? ==> |r.value.1| <= |input|
    ensures r.Ok? && ExtentOf(code).Fixed? ==> |r.value.0| == ExtentOf(code).n
  {
    match ExtentOf(code)
    case Unknown => Err(UnknownProtocolId(code))
    case Fixed(n) => SplitAt(n, input)
    case Sized =>
      match Varint.DecodeU64(input)
      case Insufficient => Err(InvalidUvar)
      case Overflow => Err(InvalidUvar)
      case Value(n, rest) => SplitAt(n, rest)
  }

  function FromBytes(input: seq<Byte>): (r: Result<(Protocol, seq<Byte>), Error>)
    ensures r.Ok? ==> |r.value.1| < |input|
  {
    match Varint.DecodeU32(input)
    case Insufficient => Err(InvalidUvar)
    case Overflow => Err(InvalidUvar)
    case Value(code, rest) =>
      match Payload(code, rest)
      case Err(e) => Err(e)
      case Ok((data, tail)) =>
        match Build(code, data)
        case Err(e) => Err(e)
        case Ok(p) => Ok((p, tail))
  }

  function Code(p: Protocol): (c: nat)
    ensures c < Varint.U32 && !ExtentOf(c).Unknown?
  {
    match p
    case Dccp(_) => DCCP
    case Dns(_) => DNS
    case Dns4(_) => DNS4
    case Dns6(_) => DNS6
    case Dnsaddr(_) => DNSADDR
    case Http => HTTP
    case Https => HTTPS
    case Ip4(_) => IP4
    case Ip6(_) => IP6
    case P2pWebRtcDirect => P2P_WEBRTC_DIRECT
    case P2pWebRtcStar => P2P_WEBRTC_STAR
    case P2pWebSocketStar => P2P_WEBSOCKET_STAR
    case Memory(_) => MEMORY
    case Onion(_, _) => ONION
    case Onion3(_, _) => ONION3
    case P2p(_) => P2P
    case P2pCircuit => P2P_CIRCUIT
    case Quic => QUIC
    case Sctp(_) => SCTP
    case Tcp(_) => TCP
    case Udp(_) => UDP
    case Udt => UDT
    case Unix(_) => UNIX
    case Utp => UTP
    case Ws(path) => if path == ROOT then WS else WS_WITH_PATH
    case Wss(path) => if path == ROOT then WSS else WSS_WITH_PATH
  }

  function Body(p: Protocol): (s: seq<Byte>)
    ensures ExtentOf(Code(p)).Fixed? ==> |s| == ExtentOf(Code(p)).n
  {
    match p
    case Dccp(port) => BigEndian(port, 2)
    case Sctp(port) => BigEndian(port, 2)
    case Tcp(port) => BigEndian(port, 2)
    case Udp(port) => BigEndian(port, 2)
    case Ip4(addr) => addr
    case Ip6(addr) => SegmentBytes(addr)
    case Memory(id) => BigEndian(id, 8)
    case Onion(hash, port) => hash + BigEndian(port, 2)
    case Onion3(hash, port) => hash + BigEndian(port, 2)
    case P2p(h) => HashBytes(h)
    case Dns(s) => s
    case Dns4(s) => s
    case Dns6(s) => s
    case Dnsaddr(s) => s
    case Unix(s) => s
    case Ws(s) => if s == ROOT then [] else s
    case Wss(s) => if s == ROOT then [] else s
    case _ => []
  }

  /** A tag, the payload's length where the tag asks for one, and the payload. */
  function Framed(code: nat, body: seq<Byte>): (s: seq<Byte>)
    ensures s != []
  {
    Varint.Encode(code) + (if ExtentOf(code).Sized? then Varint.Encode(|body|) else []) + body
  }

  function ToBytes(p: Protocol): (s: seq<Byte>)
    ensures s != []
  {
    Framed(Code(p), Body(p))
  }

  predicate IsBare(p: Protocol) {
    || p.Quic? || p.Utp? || p.Udt? || p.Http? || p.Https? || p.P2pWebSocketStar? || p.P2pWebRtcStar?
    || p.P2pWebRtcDirect? || p.P2pCircuit?
  }

  predicate IsText(p: Protocol) {
    p.Dns? || p.Dns4? || p.Dns6? || p.Dnsaddr? || p.Unix? || p.Ws? || p.Wss?
  }

  lemma BuildBare(p: Protocol)
    requires IsBare(p)
    ensures Build(Code(p), Body(p)) == Ok(p) && Body(p) == []
  {
    hide ExtentOf;
  }

  lemma BuildText(p: Protocol)
    requires IsText(p)
    ensures Build(Code(p), Body(p)) == Ok(p) && |Body(p)| <= ISIZE_MAX
  {
    hide ValidUtf8, ExtentOf;
  }

  /** The payload that a component writes builds that component again. */
  lemma BuildBody(p: Protocol)
    ensures Build(Code(p), Body(p)) == Ok(p) && |Body(p)| <= ISIZE_MAX
  {
    hide ValidUtf8, FromBigEndian, BigEndian, Segments, SegmentBytes, HashBytes, HashFromBytes, ReadU16, ReadU64;
    hide ExtentOf;
    if IsBare(p) {
      BuildBare(p);
    } else if IsText(p) {
      BuildText(p);
    } else {
      BuildSpecial(p);
    }
  }

  lemma BuildSpecial(p: Protocol)
    requires !IsBare(p) && !IsText(p)
    ensures Build(Code(p), Body(p)) == Ok(p) && |Body(p)| <= ISIZE_MAX
  {
    hide ValidUtf8, FromBigEndian, BigEndian, Segments, SegmentBytes, HashBytes, HashFromBytes, ReadU16, ReadU64;
    hide ExtentOf;
    match p
    case Dccp(port) => ReadBack(port);
    case Sctp(port) => ReadBack(port);
    case Tcp(port) => ReadBack(port);
    case Udp(port) => ReadBack(port);
    case Memory(id) => ReadBack(id);
    case Ip4(_) =>
    case Ip6(addr) => SegmentsRoundTrip(addr);
    case Onion(hash, port) =>
      ReadBack(port);
      assert Body(p)[..10] == hash && Body(p)[10..] == BigEndian(port, 2);
    case Onion3(hash, port) =>
      ReadBack(port);
      assert Body(p)[..35] == hash && Body(p)[35..] == BigEndian(port, 2);
    case P2p(h) =>
      HashRoundTrip(h);
      HashLength(h);
  }

  lemma SplitJoined(body: seq<Byte>, rest: seq<Byte>)
    ensures SplitAt(|body|, body + rest) == Ok((body, rest))
  {
    assert (body + rest)[..|body|] == body && (body + rest)[|body|..] == rest;
  }

  lemma SizedPayload(code: nat, body: seq<Byte>, rest: seq<Byte>)
    requires ExtentOf(code).Sized? && |body| <= ISIZE_MAX
    ensures Payload(code, Varint.Encode(|body|) + body + rest) == Ok((body, rest))
  {
    hide ExtentOf, Varint.Encode, Varint.DecodeU64, SplitAt;
    Varint.RoundTrip(|body|, body + rest);
    assert Varint.Encode(|body|) + body + rest == Varint.Encode(|body|) + (body + rest);
    SplitJoined(body, rest);
  }

  lemma PayloadOf(code: nat, body: seq<Byte>, rest: seq<Byte>)
    requires !ExtentOf(code).Unknown? && |body| <= ISIZE_MAX
    requires ExtentOf(code).Fixed? ==> |body| == ExtentOf(code).n
    ensures Payload(code, (if ExtentOf(code).Sized? then Varint.Encode(|body|) else []) + body + rest)
                == Ok((body, rest))
  {
    hide ExtentOf, Varint.Encode, Varint.DecodeU64, SplitAt;
    if ExtentOf(code).Sized? {
      SizedPayload(code, body, rest);
    } else {
      assert [] + body + rest == body + rest;
      SplitJoined(body, rest);
    }
  }

  /** Decoding returns the encoded component and stops exactly where its bytes end. */
  lemma RoundTrip(p: Protocol, rest: seq<Byte>)
    ensures FromBytes(ToBytes(p) + rest) == Ok((p, rest))
  {
    hide ExtentOf, Code, Body, Build, Payload, Varint.Encode, Varint.DecodeU32;
    var code, body := Code(p), Body(p);
    var framed := (if ExtentOf(code).Sized? then Varint.Encode(|body|) else []) + body + rest;
    BuildBody(p);
    PayloadOf(code, body, rest);
    Varint.RoundTrip(code, framed);
    assert ToBytes(p) + rest == Varint.Encode(code) + framed;
  }

  // A component's bytes do not depend on what follows them

  lemma ScanLast(b: Byte, s: seq<Byte>, more: nat)
    requires Varint.IsLast(b)
    ensures Varint.Scan([b] + s, more) == Varint.Value(b, s)
  {
    assert ([b] + s)[1..] == s;
  }

  lemma ScanCons(b: Byte, s: seq<Byte>, more: nat)
    requires !Varint.IsLast(b)
    ensures Varint.Scan([b] + s, more).Value? <==> more > 0 && Varint.Scan(s, more - 1).Value?
    ensures more > 0 && Varint.Scan(s, more - 1).Value? ==>
              var d := Varint.Scan(s, more - 1);
              Varint.Scan([b] + s, more) == Varint.Value(b - 128 + 128 * d.n, d.rest)
  {
    assert ([b] + s)[1..] == s;
  }

  /** A scan leaves the end of what it is given. */
  lemma {:induction false} ScanSplits(s: seq<Byte>, more: nat) returns (c: seq<Byte>)
    requires Varint.Scan(s, more).Value?
    ensures c != [] && s == c + Varint.Scan(s, more).rest
  {
    var b, later := s[0], s[1..];
    assert s == [b] + later;
    if Varint.IsLast(b) {
      ScanLast(b, later, more);
      c := [b];
    } else {
      ScanCons(b, later, more);
      hide Varint.Scan;
      var front := ScanSplits(later, more - 1);
      c := [b] + front;
    }
  }

  /** What a scan reads does not depend on what follows it. */
  lemma {:induction false} ScanForgets(c: seq<Byte>, rest: seq<Byte>, more: nat, t: seq<Byte>)
    requires c != [] && Varint.Scan(c + rest, more).Value? && Varint.Scan(c + rest, more).rest == rest
    ensures Varint.Scan(c + t, more) == Varint.Value(Varint.Scan(c + rest, more).n, t)
  {
    hide Varint.Scan;
    var b, later := c[0], c[1..];
    assert c + rest == [b] + (later + rest) && c + t == [b] + (later + t);
    if Varint.IsLast(b) {
      ScanLast(b, later + rest, more);
      assert |later| == 0;
      assert later + t == t;
      ScanLast(b, later + t, more);
    } else {
      ScanCons(b, later + rest, more);
      ScanCons(b, later + t, more);
      assert |later + rest| > |rest|;
      ScanForgets(later, rest, more - 1, t);
    }
  }

  lemma ScanIsLocal(s: seq<Byte>, more: nat, t: seq<Byte>)
    requires Varint.Scan(s, more).Value?
    ensures var d := Varint.Scan(s, more);
            var c := s[..|s| - |d.rest|];
            s == c + d.rest && Varint.Scan(c + t, more) == Varint.Value(d.n, t)
  {
    hide Varint.Scan;
    var d := Varint.Scan(s, more);
    var c := ScanSplits(s, more);
    assert s[..|s| - |d.rest|] == c;
    ScanForgets(c, d.rest, more, t);
  }

  lemma DecodeIsLocal(s: seq<Byte>, more: nat, width: nat, t: seq<Byte>)
    requires width > 0 && Varint.Decode(s, more, width).Value?
    ensures var d := Varint.Decode(s, more, width);
            var c := s[..|s| - |d.rest|];
            s == c + d.rest && Varint.Decode(c + t, more, width) == Varint.Value(d.n, t)
  {
    ScanIsLocal(s, more, t);
  }

  lemma SplitIsLocal(n: nat, input: seq<Byte>, t: seq<Byte>)
    requires SplitAt(n, input).Ok?
    ensures SplitAt(n, SplitAt(n, input).value.0 + t) == Ok((SplitAt(n, input).value.0, t))
  {
  }

  /** The bytes that a payload takes from the front of `input`. */
  function Extracted(code: nat, input: seq<Byte>): seq<Byte>
    requires Payload(code, input).Ok?
  {
    input[..|input| - |Payload(code, input).value.1|]
  }

  lemma PayloadIsLocal(code: nat, input: seq<Byte>, t: seq<Byte>)
    requires Payload(code, input).Ok?
    ensures input == Extracted(code, input) + Payload(code, input).value.1
    ensures Payload(code, Extracted(code, input) + t) == Ok((Payload(code, input).value.0, t))
  {
    hide ExtentOf, Varint.Decode;
    var (data, tail) := Payload(code, input).value;
    if ExtentOf(code).Sized? {
      var d := Varint.DecodeU64(input);
      var c := input[..|input| - |d.rest|];
      DecodeIsLocal(input, 9, Varint.U64, data + t);
      SplitIsLocal(d.n, d.rest, t);
      assert Extracted(code, input) == c + data;
      assert c + data + t == c + (data + t);
    } else {
      assert Extracted(code, input) == data;
      SplitIsLocal(ExtentOf(code).n, input, t);
    }
  }

  /** The bytes that decoding takes from the front of `input`. */
  function Consumed(input: seq<Byte>): (c: seq<Byte>)
    requires FromBytes(input).Ok?
    ensures c != []
  {
    input[..|input| - |FromBytes(input).value.1|]
  }

  /** The code is self-delimiting: what decoding took decodes the same whatever follows it, nothing included. */
  lemma SelfDelimiting(input: seq<Byte>, t: seq<Byte>)
    requires FromBytes(input).Ok?
    ensures input == Consumed(input) + FromBytes(input).value.1
    ensures FromBytes(Consumed(input) + t) == Ok((FromBytes(input).value.0, t))
  {
    hide Payload, Extracted, Build, Varint.Decode;
    var d := Varint.DecodeU32(input);
    var c := input[..|input| - |d.rest|];
    var taken := Extracted(d.n, d.rest);
    PayloadIsLocal(d.n, d.rest, t);
    DecodeIsLocal(input, 4, Varint.U32, taken + t);
    assert Consumed(input) == c + taken;
    assert c + taken + t == c + (taken + t);
  }

  // Reading and writing step by step

  /** The eight segments of an IPv6 address, one 16-bit read each. */
  method ReadSegments(data: seq<Byte>) returns (segments: seq<U16>)
    requires |data| == 16
    ensures segments == Segments(data)
  {
    segments := [];
    var rest := data;
    assert segments + Segments(rest) == Segments(data);
    for i := 0 to 8
      invariant |rest| == 16 - 2 * i
      invariant segments + Segments(rest) == Segments(data)
    {
      assert segments + ([ReadU16(rest[..2])] + Segments(rest[2..])) ==
             segments + [ReadU16(rest[..2])] + Segments(rest[2..]);
      segments := segments + [ReadU16(rest[..2])];
      rest := rest[2..];
    }
    assert segments + [] == segments;
  }

  method WriteSegments(addr: Ipv6Addr, w: seq<Byte>) returns (r: seq<Byte>)
    ensures r == w + SegmentBytes(addr)
  {
    r := w;
    assert addr[0..] == addr;
    for i := 0 to 8
      invariant r + SegmentBytes(addr[i..]) == w + SegmentBytes(addr)
    {
      assert addr[i..][1..] == addr[i + 1..];
      assert r + (BigEndian(addr[i], 2) + SegmentBytes(addr[i + 1..])) ==
             r + BigEndian(addr[i], 2) + SegmentBytes(addr[i + 1..]);
      r := r + BigEndian(addr[i], 2);
    }
    assert SegmentBytes(addr[8..]) == [] && r + [] == r;
  }

  method WriteSized(code: nat, data: seq<Byte>, w: seq<Byte>) returns (r: seq<Byte>)
    requires ExtentOf(code).Sized?
    ensures r == w + Framed(code, data)
  {
    hide ExtentOf;
    r := w + Varint.Encode(code);
    r := r + Varint.Encode(|data|);
    r := r + data;
  }

  method WriteFixed(code: nat, data: seq<Byte>, w: seq<Byte>) returns (r: seq<Byte>)
    requires ExtentOf(code).Fixed?
    ensures r == w + Framed(code, data)
  {
    hide ExtentOf;
    r := w + Varint.Encode(code);
    r := r + data;
  }

  lemma FramedIpv6(addr: Ipv6Addr)
    ensures Framed(IP6, SegmentBytes(addr)) == Framed(IP6, []) + SegmentBytes(addr)
  {
  }

  method WriteIpv6(addr: Ipv6Addr, w: seq<Byte>) returns (r: seq<Byte>)
    ensures r == w + Framed(IP6, SegmentBytes(addr))
  {
    hide Framed, SegmentBytes;
    r := WriteFixed(IP6, [], w);
    r := WriteSegments(addr, r);
    FramedIpv6(addr);
    assert r == w + (Framed(IP6, []) + SegmentBytes(addr));
  }

  /** The arms of the components that are a tag only. */
  method WriteBare(p: Protocol, w: seq<Byte>) returns (r: seq<Byte>)
    requires IsBare(p)
    ensures r == w + ToBytes(p)
  {
    hide Framed;
    match p
    case Quic => r := WriteFixed(QUIC, [], w);
    case Utp => r := WriteFixed(UTP, [], w);
    case Udt => r := WriteFixed(UDT, [], w);
    case Http => r := WriteFixed(HTTP, [], w);
    case Https => r := WriteFixed(HTTPS, [], w);
    case P2pWebSocketStar => r := WriteFixed(P2P_WEBSOCKET_STAR, [], w);
    case P2pWebRtcStar => r := WriteFixed(P2P_WEBRTC_STAR, [], w);
    case P2pWebRtcDirect => r := WriteFixed(P2P_WEBRTC_DIRECT, [], w);
    case P2pCircuit => r := WriteFixed(P2P_CIRCUIT, [], w);
  }

  /** The arms of the components that hold a text. */
  method WriteText(p: Protocol, w: seq<Byte>) returns (r: seq<Byte>)
    requires IsText(p)
    ensures r == w + ToBytes(p)
  {
    hide Framed, ValidUtf8;
    match p
    case Dns(s) => r := WriteSized(DNS, s, w);
    case Dns4(s) => r := WriteSized(DNS4, s, w);
    case Dns6(s) => r := WriteSized(DNS6, s, w);
    case Dnsaddr(s) => r := WriteSized(DNSADDR, s, w);
    case Unix(s) => r := WriteSized(UNIX, s, w);
    case Ws(s) =>
      if s == ROOT { r := WriteFixed(WS, [], w); } else { r := WriteSized(WS_WITH_PATH, s, w); }
    case Wss(s) =>
      if s == ROOT { r := WriteFixed(WSS, [], w); } else { r := WriteSized(WSS_WITH_PATH, s, w); }
  }

  /** Appends a component to a writer. */
  method WriteBytes(p: Protocol, w: seq<Byte>) returns (r: seq<Byte>)
    ensures r == w + ToBytes(p)
  {
    hide Framed, SegmentBytes, BigEndian, HashBytes, ValidUtf8, Varint.Encode;
    match p
    case Ip4(addr) => r := WriteFixed(IP4, addr, w);
    case Ip6(addr) =>
      r := WriteIpv6(addr, w);
    case Tcp(port) => r := WriteFixed(TCP, BigEndian(port, 2), w);
    case Udp(port) => r := WriteFixed(UDP, BigEndian(port, 2), w);
    case Dccp(port) => r := WriteFixed(DCCP, BigEndian(port, 2), w);
    case Sctp(port) => r := WriteFixed(SCTP, BigEndian(port, 2), w);
    case P2p(h) => r := WriteSized(P2P, HashBytes(h), w);
    case Onion(hash, port) => r := WriteFixed(ONION, hash + BigEndian(port, 2), w);
    case Onion3(hash, port) => r := WriteFixed(ONION3, hash + BigEndian(port, 2), w);
    case Memory(id) => r := WriteFixed(MEMORY, BigEndian(id, 8), w);
    case _ =>
      if IsText(p) { r := WriteText(p, w); } else { r := WriteBare(p, w); }
  }
}
