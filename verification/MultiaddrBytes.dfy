/** The bytes of every component written out: tags as they stand on the wire, integers most significant byte first. */
module MultiaddrBytes {
  import opened Bytes
  import opened MultiaddrProtocol
  import M = Multiaddr
  import Varint

  // Integers

  function Times(x: nat, d: nat): nat { x * d }

  lemma TimesNext(x: nat, d: nat)
    ensures Times(x + 1, d) == Times(x, d) + d
  {
  }

  lemma {:induction false} TimesMonotone(x: nat, y: nat, d: nat)
    requires x < y
    ensures Times(x, d) + d <= Times(y, d)
    decreases y
  {
    hide Times;
    TimesNext(y - 1, d);
    if x < y - 1 { TimesMonotone(x, y - 1, d); }
  }

  lemma Divided(n: nat, d: nat)
    requires d > 0
    ensures n == Times(n / d, d) + n % d
  {
  }

  lemma Quotient(n: nat, d: nat, p: nat, r: nat)
    requires d > 0 && n == Times(p, d) + r && r < d
    ensures n / d == p
  {
    hide Times;
    Divided(n, d);
    var q, m := n / d, n % d;
    if p < q { TimesMonotone(p, q, d); } else if q < p { TimesMonotone(q, p, d); }
  }

  lemma TimesScaled(p: nat, a: nat, b: nat)
    requires a == 128 || a == 256
    ensures Times(p, a * b) == a * Times(p, b)
  {
    if a == 128 { assert p * (128 * b) == 128 * (p * b); } else { assert p * (256 * b) == 256 * (p * b); }
  }

  lemma DivideTwice(n: nat, a: nat, b: nat)
    requires (a == 128 || a == 256) && b > 0
    ensures a * b > 0 && n / a / b == n / (a * b)
  {
    hide Times;
    var q, k := n / a, n % a;
    assert n == a * q + k;
    var p, m := q / b, q % b;
    Divided(q, b);
    TimesScaled(p, a, b);
    assert a * m + k < a * b;
    Quotient(n, a * b, p, a * m + k);
  }

  /** Byte `i` of an integer of `k` bytes is its digit of weight 256 to the power k - 1 - i. */
  lemma {:induction false} BigEndianByte(n: nat, k: nat, i: nat)
    requires i < k
    ensures BigEndian(n, k)[i] == n / Range(k - 1 - i) % 256
  {
    if i < k - 1 {
      BigEndianByte(n / 256, k - 1, i);
      DivideTwice(n, 256, Range(k - 2 - i));
    } else {
      assert Range(0) == 1;
    }
  }

  /** A 16-bit integer is its high byte and its low byte. */
  lemma TwoBytes(n: U16)
    ensures BigEndian(n, 2) == [n / 256, n % 256]
  {
    assert BigEndian(n, 2) == BigEndian(n / 256, 1) + [n % 256];
    assert BigEndian(n / 256, 1) == BigEndian(n / 256 / 256, 0) + [n / 256 % 256];
  }

  lemma {:induction false} SegmentBytesAt(segments: seq<U16>, i: nat)
    requires i < |segments|
    ensures SegmentBytes(segments)[2 * i] == segments[i] / 256 && SegmentBytes(segments)[2 * i + 1] == segments[i] % 256
  {
    TwoBytes(segments[0]);
    if i > 0 { SegmentBytesAt(segments[1..], i - 1); }
  }

  /** Group `i` of a varint is its digit of weight 128 to the power i; every byte but the last has its high bit set. */
  lemma {:induction false} VarintByte(n: nat, i: nat)
    requires i < |Varint.Encode(n)|
    ensures Varint.Encode(n)[i] == n / Varint.Span(i) % 128 + (if i + 1 < |Varint.Encode(n)| then 128 else 0)
  {
    assert Varint.Span(0) == 1;
    if n >= 128 {
      assert Varint.Encode(n) == [128 + n % 128] + Varint.Encode(n / 128);
      if i > 0 {
        VarintByte(n / 128, i - 1);
        DivideTwice(n, 128, Varint.Span(i - 1));
      }
    }
  }

  // Components

  /** The tag of each component on the wire. */
  function Tag(p: Protocol): seq<Byte> {
    match p
    case Dccp(_) => [0x21]
    case Dns(_) => [0x35]
    case Dns4(_) => [0x36]
    case Dns6(_) => [0x37]
    case Dnsaddr(_) => [0x38]
    case Http => [0xe0, 0x03]
    case Https => [0xbb, 0x03]
    case Ip4(_) => [0x04]
    case Ip6(_) => [0x29]
    case P2pWebRtcDirect => [0x94, 0x02]
    case P2pWebRtcStar => [0x93, 0x02]
    case P2pWebSocketStar => [0xdf, 0x03]
    case Memory(_) => [0x89, 0x06]
    case Onion(_, _) => [0xbc, 0x03]
    case Onion3(_, _) => [0xbd, 0x03]
    case P2p(_) => [0xa5, 0x03]
    case P2pCircuit => [0xa2, 0x02]
    case Quic => [0xcc, 0x03]
    case Sctp(_) => [0x84, 0x01]
    case Tcp(_) => [0x06]
    case Udp(_) => [0x91, 0x02]
    case Udt => [0xad, 0x02]
    case Unix(_) => [0x90, 0x03]
    case Utp => [0xae, 0x02]
    case Ws(path) => if path == [0x2f] then [0xdd, 0x03] else [0xa2, 0x25]
    case Wss(path) => if path == [0x2f] then [0xde, 0x03] else [0xac, 0x25]
  }

  /** A number of two groups. */
  lemma TwoGroups(c: nat)
    requires 128 <= c < 16384
    ensures Varint.Encode(c) == [128 + c % 128, c / 128]
  {
    assert Varint.Encode(c) == [128 + c % 128] + Varint.Encode(c / 128);
  }

  lemma TagOfCode(p: Protocol)
    ensures Varint.Encode(Code(p)) == Tag(p)
  {
    hide ExtentOf, Varint.Encode;
    if Code(p) >= 128 { TwoGroups(Code(p)); }
  }

  /** What follows the tag: nothing, an integer, an address, or a length and as many bytes. */
  function Rest(p: Protocol): seq<Byte> {
    match p
    case Dccp(port) => [port / 256, port % 256]
    case Sctp(port) => [port / 256, port % 256]
    case Tcp(port) => [port / 256, port % 256]
    case Udp(port) => [port / 256, port % 256]
    case Ip4(a) => [a[0], a[1], a[2], a[3]]
    case Ip6(a) =>
      [a[0] / 256, a[0] % 256, a[1] / 256, a[1] % 256, a[2] / 256, a[2] % 256, a[3] / 256, a[3] % 256,
       a[4] / 256, a[4] % 256, a[5] / 256, a[5] % 256, a[6] / 256, a[6] % 256, a[7] / 256, a[7] % 256]
    case Memory(id) => BigEndian(id, 8)
    case Onion(hash, port) => hash + [port / 256, port % 256]
    case Onion3(hash, port) => hash + [port / 256, port % 256]
    case P2p(h) =>
      var hash := Varint.Encode(h.code) + Varint.Encode(|h.digest|) + h.digest;
      Varint.Encode(|hash|) + hash
    case Dns(s) => Varint.Encode(|s|) + s
    case Dns4(s) => Varint.Encode(|s|) + s
    case Dns6(s) => Varint.Encode(|s|) + s
    case Dnsaddr(s) => Varint.Encode(|s|) + s
    case Unix(s) => Varint.Encode(|s|) + s
    case Ws(s) => if s == [0x2f] then [] else Varint.Encode(|s|) + s
    case Wss(s) => if s == [0x2f] then [] else Varint.Encode(|s|) + s
    case _ => []
  }

  lemma SegmentsWritten(a: Ipv6Addr)
    ensures SegmentBytes(a) == Rest(Ip6(a))
  {
    var r := Rest(Ip6(a));
    assert |r| == 16;
    forall i | 0 <= i < 8 ensures SegmentBytes(a)[2 * i] == r[2 * i] && SegmentBytes(a)[2 * i + 1] == r[2 * i + 1] {
      SegmentBytesAt(a, i);
    }
    forall j | 0 <= j < 16 ensures SegmentBytes(a)[j] == r[j] {
      assert j == 2 * (j / 2) || j == 2 * (j / 2) + 1;
    }
  }

  lemma RestOfNumber(p: Protocol)
    requires p.Dccp? || p.Sctp? || p.Tcp? || p.Udp? || p.Onion? || p.Onion3?
    ensures Body(p) == Rest(p) && ExtentOf(Code(p)).Fixed?
  {
    TwoBytes(p.port);
    hide BigEndian;
  }

  lemma RestOfPath(p: Protocol)
    requires p.Ws? || p.Wss?
    ensures Rest(p) == (if ExtentOf(Code(p)).Sized? then Varint.Encode(|Body(p)|) else []) + Body(p)
  {
    hide ValidUtf8, Varint.Encode;
  }

  lemma RestOfText(p: Protocol)
    requires IsText(p) && !p.Ws? && !p.Wss?
    ensures Rest(p) == (if ExtentOf(Code(p)).Sized? then Varint.Encode(|Body(p)|) else []) + Body(p)
  {
    hide ValidUtf8, Varint.Encode;
  }

  lemma RestOfBare(p: Protocol)
    requires IsBare(p)
    ensures Rest(p) == Body(p) == [] && ExtentOf(Code(p)).Fixed?
  {
  }

  lemma RestOfOther(p: Protocol)
    requires p.Ip4? || p.Ip6? || p.Memory? || p.P2p?
    ensures Rest(p) == (if ExtentOf(Code(p)).Sized? then Varint.Encode(|Body(p)|) else []) + Body(p)
  {
    hide BigEndian, SegmentBytes, Varint.Encode;
    if p.Ip6? { SegmentsWritten(p.ip6); }
  }

  /** The whole of a component: its tag and what follows, for each of the 26 components. */
  lemma BytesOfComponent(p: Protocol)
    ensures ToBytes(p) == Tag(p) + Rest(p)
  {
    hide Code, Body, ExtentOf, Rest, Tag, Varint.Encode;
    TagOfCode(p);
    if p.Ws? || p.Wss? {
      RestOfPath(p);
    } else if IsText(p) {
      RestOfText(p);
    } else if IsBare(p) {
      RestOfBare(p);
    } else if p.Ip4? || p.Ip6? || p.Memory? || p.P2p? {
      RestOfOther(p);
    } else {
      RestOfNumber(p);
    }
    Joined(Varint.Encode(Code(p)), if ExtentOf(Code(p)).Sized? then Varint.Encode(|Body(p)|) else [], Body(p));
  }

  lemma Joined(a: seq<Byte>, b: seq<Byte>, c: seq<Byte>)
    ensures a + b + c == a + (b + c) && a + [] + c == a + c
  {
  }

  /** The eight bytes of a memory id, each the digit of its weight. */
  lemma BytesOfMemory(id: U64, i: nat)
    requires i < 8
    ensures ToBytes(Memory(id))[..2] == [0x89, 0x06] && |ToBytes(Memory(id))| == 10
    ensures ToBytes(Memory(id))[2 + i] == id / Range(7 - i) % 256
  {
    BytesOfComponent(Memory(id));
    BigEndianByte(id, 8, i);
    hide BigEndian, ToBytes;
  }

  lemma BytesOfNumbers()
    ensures Tag(Udp(1234)) + Rest(Udp(1234)) == [0x91, 0x02, 0x04, 0xd2]
    ensures Tag(Tcp(1234)) + Rest(Tcp(1234)) == [0x06, 0x04, 0xd2]
    ensures Tag(Ip4([127, 0, 0, 1])) + Rest(Ip4([127, 0, 0, 1])) == [0x04, 0x7f, 0x00, 0x00, 0x01]
    ensures Tag(Https) + Rest(Https) == [0xbb, 0x03]
  {
  }

  /** Whole addresses: /ip4/127.0.0.1/udp/1234, /ip4/127.0.0.1/tcp/1234 and /tcp/1234/https. */
  lemma BytesOfAddresses()
    ensures M.Concat([Ip4([127, 0, 0, 1]), Udp(1234)]) == [0x04, 0x7f, 0x00, 0x00, 0x01, 0x91, 0x02, 0x04, 0xd2]
    ensures M.Concat([Ip4([127, 0, 0, 1]), Tcp(1234)]) == [0x04, 0x7f, 0x00, 0x00, 0x01, 0x06, 0x04, 0xd2]
    ensures M.Concat([Tcp(1234), Https]) == [0x06, 0x04, 0xd2, 0xbb, 0x03]
  {
    hide Tag, Rest, M.Concat;
    BytesOfNumbers();
    TwoComponents(Ip4([127, 0, 0, 1]), Udp(1234));
    TwoComponents(Ip4([127, 0, 0, 1]), Tcp(1234));
    TwoComponents(Tcp(1234), Https);
  }

  lemma TwoComponents(p: Protocol, q: Protocol)
    ensures M.Concat([p, q]) == Tag(p) + Rest(p) + (Tag(q) + Rest(q))
  {
    hide ToBytes, Tag, Rest;
    BytesOfComponent(p);
    BytesOfComponent(q);
    assert [p, q][1..] == [q] && [q][1..] == [];
    assert M.Concat([q]) == ToBytes(q) + M.Concat([]);
    assert ToBytes(q) + [] == ToBytes(q);
  }

  /** A peer id is a multihash: here the tag, 34 bytes, SHA2-256 (0x12), 32 bytes. */
  lemma BytesOfPeer(digest: Digest)
    requires |digest| == 32
    ensures ToBytes(P2p(Multihash(0x12, digest))) == [0xa5, 0x03, 34, 0x12, 32] + digest
  {
    var p := P2p(Multihash(0x12, digest));
    BytesOfComponent(p);
    assert Varint.Encode(0x12) == [0x12] && Varint.Encode(32) == [32] && Varint.Encode(34) == [34];
    assert |[0x12] + [32] + digest| == 34;
  }
}
