/** When decoding a component and encoding it again gives the bytes that were decoded. */
module MultiaddrReencoding {
  import opened Bytes
  import opened MultiaddrProtocol
  import M = Multiaddr
  import Varint

  // Varints

  /** The shortest form of its number: one byte, or a last byte that adds to it. */
  predicate Minimal(c: seq<Byte>) {
    |c| == 1 || (|c| > 1 && c[|c| - 1] != 0)
  }

  /** `c` is a varint of value `n`, read by a scan that allows `more` bytes before the last. */
  predicate Spells(c: seq<Byte>, n: nat, more: nat) {
    Varint.Scan(c, more) == Varint.Value(n, [])
  }

  lemma SpellsTail(c: seq<Byte>, n: nat, more: nat)
    requires Spells(c, n, more) && !Varint.IsLast(c[0])
    ensures more > 0 && |c| > 1 && n >= c[0] - 128 && (n - (c[0] - 128)) % 128 == 0
    ensures Spells(c[1..], (n - (c[0] - 128)) / 128, more - 1)
  {
  }

  lemma Digits(n: nat, d: nat, q: nat, m: nat)
    requires n == d + 128 * q && d < 128
    ensures m == n <==> m % 128 == d && m / 128 == q
    ensures q > 0 <==> n >= 128
  {
  }

  lemma EncodeStep(m: nat, c: seq<Byte>)
    requires m >= 128 && c != []
    ensures Varint.Encode(m) == c <==> 128 + m % 128 == c[0] && Varint.Encode(m / 128) == c[1..]
  {
    assert Varint.Encode(m) == [128 + m % 128] + Varint.Encode(m / 128);
    assert c == [c[0]] + c[1..];
  }

  /** A number is encoded as `c` exactly when `c` spells it in the shortest form. */
  lemma {:induction false} EncodedIffMinimal(c: seq<Byte>, n: nat, more: nat, m: nat)
    requires Spells(c, n, more)
    ensures Varint.Encode(m) == c <==> Minimal(c) && m == n
    decreases |c|
  {
    if Varint.IsLast(c[0]) {
      OneByte(c, n, more, m);
    } else {
      SpellsTail(c, n, more);
      var d: nat, q := c[0] - 128, (n - (c[0] - 128)) / 128;
      hide Spells, Varint.Encode;
      Digits(n, d, q, m);
      LastGroup(c[1..], q, more - 1);
      if m >= 128 {
        EncodedIffMinimal(c[1..], q, more - 1, m / 128);
        EncodeStep(m, c);
      } else {
        SmallIsNotMinimal(c, n, more, q);
        assert Varint.Encode(m) == [m];
      }
    }
  }

  lemma OneByte(c: seq<Byte>, n: nat, more: nat, m: nat)
    requires Spells(c, n, more) && Varint.IsLast(c[0])
    ensures |c| == 1 && c[0] == n && (Varint.Encode(m) == c <==> m == n)
  {
    assert c[1..] == [] && c == [c[0]];
    if m >= 128 { assert |Varint.Encode(m)| >= 2; }
  }

  /** A shortest form of several bytes spells no small number. */
  lemma SmallIsNotMinimal(c: seq<Byte>, n: nat, more: nat, q: nat)
    requires Spells(c, n, more) && !Varint.IsLast(c[0]) && more > 0 && |c| > 1
    requires n == c[0] - 128 + 128 * q && Spells(c[1..], q, more - 1)
    ensures n < 128 ==> !Minimal(c)
  {
    LastGroup(c[1..], q, more - 1);
  }

  /** The last group is not empty unless the whole number is nought. */
  lemma {:induction false} LastGroup(c: seq<Byte>, n: nat, more: nat)
    requires Spells(c, n, more)
    ensures n == 0 ==> c[|c| - 1] == 0
    ensures |c| == 1 ==> c[0] == n
    decreases |c|
  {
    if Varint.IsLast(c[0]) {
      assert c[1..] == [];
    } else {
      SpellsTail(c, n, more);
      LastGroup(c[1..], (n - (c[0] - 128)) / 128, more - 1);
    }
  }

  /** The bytes of the varint at the front of `s`. */
  function Front(s: seq<Byte>, more: nat): seq<Byte>
    requires Varint.Scan(s, more).Value?
  {
    s[..|s| - |Varint.Scan(s, more).rest|]
  }

  /** The varint at the front is in its shortest form and loses no bits in an integer of this width. */
  predicate Exact(s: seq<Byte>, more: nat, width: nat) {
    var d := Varint.Scan(s, more);
    d.Value? && d.n < width && Minimal(Front(s, more))
  }

  /**
   * Bytes that begin with a varint are an encoded number and `x` exactly when both parts agree, the varint being
   * shortest.
   */
  lemma EncodedFront(s: seq<Byte>, more: nat, m: nat, x: seq<Byte>)
    requires Varint.Scan(s, more).Value? && m < Varint.Span(more + 1)
    ensures var d := Varint.Scan(s, more);
            Varint.Encode(m) + x == s <==> Minimal(Front(s, more)) && d.n == m && d.rest == x
  {
    var d := Varint.Scan(s, more);
    var c := Front(s, more);
    ScanIsLocal(s, more, []);
    assert c + [] == c;
    EncodedIffMinimal(c, d.n, more, m);
    if Varint.Encode(m) + x == s {
      Varint.ScanEncode(m, more, x);
      assert Varint.Encode(m) == s[..|s| - |x|];
    }
  }

  // Payloads

  lemma {:induction false} BigEndianInverse(s: seq<Byte>)
    ensures BigEndian(FromBigEndian(s), |s|) == s
  {
    if s != [] {
      var n := |s| - 1;
      BigEndianInverse(s[..n]);
      assert FromBigEndian(s) / 256 == FromBigEndian(s[..n]) && FromBigEndian(s) % 256 == s[n];
      assert s == s[..n] + [s[n]];
    }
  }

  lemma {:induction false} SegmentsInverse(s: seq<Byte>)
    requires |s| % 2 == 0
    ensures SegmentBytes(Segments(s)) == s
  {
    if s != [] {
      SegmentsInverse(s[2..]);
      BigEndianInverse(s[..2]);
      assert s == s[..2] + s[2..];
      assert Segments(s)[1..] == Segments(s[2..]);
    }
  }

  /** Both varints of a multihash are in their shortest form. */
  predicate HashExact(data: seq<Byte>) {
    Exact(data, 9, Varint.U64) && Exact(Varint.Scan(data, 9).rest, 9, Varint.U64)
  }

  lemma HashReencodes(data: seq<Byte>)
    requires HashFromBytes(data).Some?
    ensures HashBytes(HashFromBytes(data).value) == data <==> HashExact(data)
  {
    Varint.Spans();
    hide Varint.Scan, Varint.Encode, Varint.Span, Minimal, Front;
    var h := HashFromBytes(data).value;
    var first := Varint.Scan(data, 9);
    var second := Varint.Scan(first.rest, 9);
    EncodedFront(data, 9, h.code, Varint.Encode(|h.digest|) + h.digest);
    EncodedFront(first.rest, 9, |h.digest|, h.digest);
    Varint.SmallMod(h.code, Varint.U64);
    assert HashBytes(h) == Varint.Encode(h.code) + (Varint.Encode(|h.digest|) + h.digest);
  }

  /** A path tag whose path is the one that has a tag of its own. */
  predicate RootByPath(code: nat, data: seq<Byte>) {
    (code == WS_WITH_PATH || code == WSS_WITH_PATH) && data == ROOT
  }

  lemma RebuiltText(code: nat, data: seq<Byte>)
    requires IsSized(code) && code != P2P && Build(code, data).Ok? && !RootByPath(code, data)
    ensures Code(Build(code, data).value) == code && Body(Build(code, data).value) == data
  {
    hide ValidUtf8, ExtentOf;
  }

  lemma BuiltIsKnown(code: nat, data: seq<Byte>)
    requires ExtentOf(code).Fixed? ==> |data| == ExtentOf(code).n
    ensures Build(code, data).Ok? ==> !ExtentOf(code).Unknown?
  {
  }

  lemma RebuiltBare(code: nat)
    requires HasNoPayload(code)
    ensures Build(code, []).Ok? && Code(Build(code, []).value) == code && Body(Build(code, []).value) == []
  {
  }

  lemma RebuiltHash(data: seq<Byte>)
    requires Build(P2P, data).Ok?
    ensures var p := Build(P2P, data).value;
            p.P2p? && Code(p) == P2P && HashFromBytes(data) == Some(p.peer) && Body(p) == HashBytes(p.peer)
  {
    hide HashFromBytes, HashBytes;
  }

  lemma RebuiltFixed(code: nat, data: seq<Byte>)
    requires ExtentOf(code).Fixed? && |data| == ExtentOf(code).n > 0 && Build(code, data).Ok?
    ensures Code(Build(code, data).value) == code && Body(Build(code, data).value) == data
  {
    hide FromBigEndian, BigEndian, Segments, SegmentBytes;
    if code == IP6 {
      SegmentsInverse(data);
    } else if code == ONION {
      BigEndianInverse(data[10..]);
      assert data == data[..10] + data[10..];
    } else if code == ONION3 {
      BigEndianInverse(data[35..]);
      assert data == data[..35] + data[35..];
    } else if code != IP4 {
      BigEndianInverse(data);
    }
  }

  /** Apart from that, a component keeps its tag, and its payload unless that is a multihash. */
  lemma Rebuilt(code: nat, data: seq<Byte>)
    requires ExtentOf(code).Fixed? ==> |data| == ExtentOf(code).n
    requires Build(code, data).Ok? && !RootByPath(code, data)
    ensures var p := Build(code, data).value;
            && Code(p) == code
            && (if code == P2P then p.P2p? && HashFromBytes(data) == Some(p.peer) && Body(p) == HashBytes(p.peer)
                else Body(p) == data)
  {
    hide Build, Code, Body, HashFromBytes, HashBytes;
    BuiltIsKnown(code, data);
    if code == P2P {
      RebuiltHash(data);
    } else if HasNoPayload(code) {
      assert data == [];
      RebuiltBare(code);
    } else if IsSized(code) {
      RebuiltText(code, data);
    } else {
      RebuiltFixed(code, data);
    }
  }

  lemma RootByPathShortens(code: nat, data: seq<Byte>)
    requires ExtentOf(code).Fixed? ==> |data| == ExtentOf(code).n
    requires Build(code, data).Ok? && RootByPath(code, data)
    ensures var p := Build(code, data).value;
            Code(p) != code && Body(p) == [] && ExtentOf(Code(p)) == Fixed(0)
  {
  }

  /** Shortest varints throughout, and no path tag with the path "/". */
  predicate CanonicalParts(input: seq<Byte>, code: nat, rest: seq<Byte>, data: seq<Byte>) {
    && Exact(input, 4, Varint.U32)
    && (ExtentOf(code).Sized? ==> Exact(rest, 9, Varint.U64))
    && !RootByPath(code, data)
    && (code == P2P ==> HashExact(data))
  }

  predicate Canonical(input: seq<Byte>)
    requires FromBytes(input).Ok?
  {
    var d := Varint.DecodeU32(input);
    CanonicalParts(input, d.n, d.rest, Payload(d.n, d.rest).value.0)
  }

  lemma SizedParts(code: nat, rest: seq<Byte>)
    requires Payload(code, rest).Ok? && ExtentOf(code).Sized?
    ensures var (data, tail) := Payload(code, rest).value;
            var d := Varint.Scan(rest, 9);
            d.Value? && d.rest == data + tail && |data| == d.n % Varint.U64
  {
    hide ExtentOf, Varint.Scan;
  }

  lemma FixedParts(code: nat, rest: seq<Byte>)
    requires Payload(code, rest).Ok? && !ExtentOf(code).Sized?
    ensures var (data, tail) := Payload(code, rest).value; rest == data + tail
  {
    hide ExtentOf, Varint.Scan;
  }

  lemma SizedReencodes(rest: seq<Byte>, data: seq<Byte>, tail: seq<Byte>, body: seq<Byte>)
    requires |body| <= ISIZE_MAX && Varint.Scan(rest, 9).Value? && Varint.Scan(rest, 9).rest == data + tail
    requires |data| == Varint.Scan(rest, 9).n % Varint.U64
    ensures Varint.Encode(|body|) + (body + tail) == rest <==> body == data && Exact(rest, 9, Varint.U64)
  {
    Varint.Spans();
    hide Varint.Scan, Varint.Encode, Varint.Span, Minimal, Front;
    var d := Varint.Scan(rest, 9);
    EncodedFront(rest, 9, |body|, body + tail);
    SameFront(body, data, tail);
    if d.n < Varint.U64 { Varint.SmallMod(d.n, Varint.U64); }
  }

  /** The payload part: the same payload behind the same length, if there is one. */
  lemma PayloadReencodes(code: nat, rest: seq<Byte>, body: seq<Byte>)
    requires Payload(code, rest).Ok? && |body| <= ISIZE_MAX
    ensures var (data, tail) := Payload(code, rest).value;
            (if ExtentOf(code).Sized? then Varint.Encode(|body|) else []) + body + tail == rest <==>
            body == data && (ExtentOf(code).Sized? ==> Exact(rest, 9, Varint.U64))
  {
    hide ExtentOf, Varint.Scan, Varint.Encode, Payload, Exact;
    var (data, tail) := Payload(code, rest).value;
    if ExtentOf(code).Sized? {
      SizedParts(code, rest);
      SizedReencodes(rest, data, tail, body);
      assert Varint.Encode(|body|) + body + tail == Varint.Encode(|body|) + (body + tail);
    } else {
      FixedParts(code, rest);
      assert [] + body + tail == body + tail;
      SameFront(body, data, tail);
    }
  }

  lemma SameFront(a: seq<Byte>, b: seq<Byte>, tail: seq<Byte>)
    ensures a + tail == b + tail <==> a == b
  {
    if a + tail == b + tail {
      assert |a| == |b|;
      assert (a + tail)[..|a|] == a && (b + tail)[..|a|] == b;
    }
  }

  lemma TagReencodes(input: seq<Byte>, p: Protocol, tail: seq<Byte>)
    requires Varint.Scan(input, 4).Value?
    ensures var d := Varint.Scan(input, 4);
            ToBytes(p) + tail == input <==>
            && Minimal(Front(input, 4)) && d.n == Code(p)
            && (if ExtentOf(Code(p)).Sized? then Varint.Encode(|Body(p)|) else []) + Body(p) + tail == d.rest
  {
    Varint.Spans();
    hide Varint.Scan, Varint.Encode, Varint.Span, Minimal, Front, ExtentOf, Body, Code;
    var after := (if ExtentOf(Code(p)).Sized? then Varint.Encode(|Body(p)|) else []) + Body(p) + tail;
    assert ToBytes(p) + tail == Varint.Encode(Code(p)) + after;
    EncodedFront(input, 4, Code(p), after);
  }

  lemma PartsReencode(input: seq<Byte>, code: nat, data: seq<Byte>, tail: seq<Byte>)
    requires Varint.Scan(input, 4).Value? && code == Varint.Scan(input, 4).n % Varint.U32
    requires Payload(code, Varint.Scan(input, 4).rest) == Ok((data, tail)) && Build(code, data).Ok?
    ensures ToBytes(Build(code, data).value) + tail == input <==>
            CanonicalParts(input, code, Varint.Scan(input, 4).rest, data)
  {
    var p := Build(code, data).value;
    BuildBody(p);
    hide Varint.Scan, Varint.Encode, Minimal, Front, ExtentOf, Build, Body, Code, ToBytes, Payload, HashExact,
      HashFromBytes, HashBytes;
    var d := Varint.Scan(input, 4);
    TagReencodes(input, p, tail);
    if d.n < Varint.U32 { Varint.SmallMod(d.n, Varint.U32); }
    if RootByPath(code, data) {
      RootByPathShortens(code, data);
    } else {
      Rebuilt(code, data);
      PayloadReencodes(code, d.rest, Body(p));
      if code == P2P { HashReencodes(data); }
    }
  }

  /** For all accepted bytes: encoding the decoded component gives them back if and only if they are canonical. */
  lemma ReencodesIffCanonical(input: seq<Byte>)
    requires FromBytes(input).Ok?
    ensures ToBytes(FromBytes(input).value.0) == Consumed(input) <==> Canonical(input)
  {
    hide Varint.Scan, Payload, Build, ToBytes, CanonicalParts;
    var (p, tail) := FromBytes(input).value;
    var code, rest := Varint.DecodeU32(input).n, Varint.DecodeU32(input).rest;
    PartsReencode(input, code, Payload(code, rest).value.0, tail);
    SelfDelimiting(input, []);
    SameFront(ToBytes(p), Consumed(input), tail);
  }

  predicate AllCanonical(bytes: seq<Byte>)
    requires M.Valid(bytes)
    decreases |bytes|
  {
    bytes == [] || (Canonical(bytes) && AllCanonical(FromBytes(bytes).value.1))
  }

  /** A valid address is what collecting its components gives if and only if each of them is canonical. */
  lemma {:induction false} AddressReencodesIffCanonical(bytes: seq<Byte>)
    requires M.Valid(bytes)
    ensures M.Concat(M.Components(bytes).value) == bytes <==> AllCanonical(bytes)
    decreases |bytes|
  {
    hide FromBytes, Consumed, ToBytes, Canonical;
    if bytes != [] {
      var (p, rest) := FromBytes(bytes).value;
      var ps := M.Components(rest).value;
      assert M.Components(bytes).value == [p] + ps && ([p] + ps)[1..] == ps;
      AddressReencodesIffCanonical(rest);
      ReencodesIffCanonical(bytes);
      SelfDelimiting(bytes, []);
      RoundTrip(p, M.Concat(ps));
      if M.Concat(ps) == rest { SameFront(ToBytes(p), Consumed(bytes), rest); }
    }
  }

  /** The path "/" behind a path tag decodes, and encodes as the shorter tag. */
  lemma ReencodingMayShorten()
    ensures FromBytes(Varint.Encode(WS_WITH_PATH) + [1] + ROOT) == Ok((Ws(RootPath()), []))
    ensures ToBytes(Ws(RootPath())) == Varint.Encode(WS) != Varint.Encode(WS_WITH_PATH) + [1] + ROOT
  {
    var input := Varint.Encode(WS_WITH_PATH) + [1] + ROOT;
    Varint.RoundTrip(WS_WITH_PATH, [1] + ROOT);
    assert input == Varint.Encode(WS_WITH_PATH) + ([1] + ROOT);
    PayloadOf(WS_WITH_PATH, ROOT, []);
    assert Varint.Encode(1) + ROOT + [] == [1] + ROOT;
    assert Build(WS_WITH_PATH, ROOT) == Ok(Ws(RootPath())) by { hide ExtentOf; }
    hide Build, Payload;
    assert FromBytes(input) == Ok((Ws(RootPath()), []));
    assert ToBytes(Ws(RootPath())) == Varint.Encode(WS) + [] + [];
    assert |Varint.Encode(WS)| == 2;
  }
}
