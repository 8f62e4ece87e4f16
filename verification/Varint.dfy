/** Unsigned varints: little-endian groups of seven bits, high bit set on every byte but the last. */
module Varint {
  import opened Bytes

  datatype Decoded = Value(n: nat, rest: seq<Byte>) | Insufficient | Overflow

  const U16 := 0x1_0000
  const U32 := 0x1_0000_0000
  const U64 := 0x1_0000_0000_0000_0000

  predicate IsLast(b: Byte) {
    b < 128
  }

  function Encode(n: nat): (s: seq<Byte>)
    ensures |s| >= 1
    ensures n < 128 ==> s == [n]
    ensures n < 16384 ==> |s| <= 2
  {
    if n < 128 then [n] else [128 + n % 128] + Encode(n / 128)
  }

  /** Reads groups until a last byte; at most `more` bytes may precede it. */
  function Scan(s: seq<Byte>, more: nat): (d: Decoded)
    ensures d.Value? ==> |d.rest| < |s|
  {
    if s == [] then Insufficient
    else if IsLast(s[0]) then Value(s[0], s[1..])
    else if more == 0 then Overflow
    else
      match Scan(s[1..], more - 1)
      case Value(n, rest) => Value(s[0] - 128 + 128 * n, rest)
      case other => other
  }

  /** The decoder of a fixed-width integer: bits shifted past the width are dropped. */
  function Decode(s: seq<Byte>, more: nat, width: nat): (d: Decoded)
    requires width > 0
    ensures d.Value? ==> d.n < width && |d.rest| < |s|
  {
    match Scan(s, more)
    case Value(n, rest) => Value(n % width, rest)
    case other => other
  }

  function DecodeU16(s: seq<Byte>): Decoded { Decode(s, 2, U16) }

  function DecodeU32(s: seq<Byte>): Decoded { Decode(s, 4, U32) }

  function DecodeU64(s: seq<Byte>): Decoded { Decode(s, 9, U64) }

  /** The largest value that fits in `groups` groups, plus one. */
  function Span(groups: nat): (p: nat)
    ensures p >= 1
  {
    if groups == 0 then 1 else 128 * Span(groups - 1)
  }

  lemma {:induction false} ScanEncode(n: nat, more: nat, rest: seq<Byte>)
    requires n < Span(more + 1)
    ensures Scan(Encode(n) + rest, more) == Value(n, rest)
  {
    var s := Encode(n) + rest;
    if n < 128 {
      assert s[1..] == rest;
    } else {
      assert Span(1) == 128 by { assert Span(0) == 1; }
      assert more > 0;
      assert n / 128 < Span(more);
      ScanEncode(n / 128, more - 1, rest);
      assert s[1..] == Encode(n / 128) + rest;
    }
  }

  lemma Spans()
    ensures Span(3) > U16 && Span(5) > U32 && Span(10) > U64
  {
    assert Span(3) == 128 * 128 * 128 by { assert Span(2) == 128 * Span(1) && Span(1) == 128; }
    assert Span(5) == 128 * 128 * Span(3) by { assert Span(4) == 128 * Span(3); }
    assert Span(7) == 128 * 128 * Span(5) by { assert Span(6) == 128 * Span(5); }
    assert Span(9) == 128 * 128 * Span(7) by { assert Span(8) == 128 * Span(7); }
    assert Span(10) == 128 * Span(9);
  }

  lemma SmallMod(n: nat, width: nat)
    requires n < width
    ensures n % width == n
  {
  }

  lemma DecodeEncode(n: nat, more: nat, width: nat, rest: seq<Byte>)
    requires n < width <= Span(more + 1)
    ensures Decode(Encode(n) + rest, more, width) == Value(n, rest)
  {
    ScanEncode(n, more, rest);
    SmallMod(n, width);
  }

  /** Each width decodes what was encoded and leaves the following bytes alone. */
  lemma RoundTrip(n: nat, rest: seq<Byte>)
    ensures n < U16 ==> DecodeU16(Encode(n) + rest) == Value(n, rest)
    ensures n < U32 ==> DecodeU32(Encode(n) + rest) == Value(n, rest)
    ensures n < U64 ==> DecodeU64(Encode(n) + rest) == Value(n, rest)
  {
    Spans();
    if n < U16 { DecodeEncode(n, 2, U16, rest); }
    if n < U32 { DecodeEncode(n, 4, U32, rest); }
    if n < U64 { DecodeEncode(n, 9, U64, rest); }
  }

  /** A scan that stopped does not depend on what follows. */
  lemma {:induction false} ScanExtends(s: seq<Byte>, t: seq<Byte>, more: nat)
    requires !Scan(s, more).Insufficient?
    ensures Scan(s, more).Value? ==> Scan(s + t, more) == Value(Scan(s, more).n, Scan(s, more).rest + t)
    ensures Scan(s, more).Overflow? ==> Scan(s + t, more) == Overflow
  {
    if IsLast(s[0]) {
      assert (s + t)[1..] == s[1..] + t;
    } else if more > 0 {
      ScanExtends(s[1..], t, more - 1);
      assert (s + t)[1..] == s[1..] + t;
    }
  }

  /** Where a scan ends is where the first last byte is. */
  lemma {:induction false} ScanStops(s: seq<Byte>, k: nat, more: nat)
    requires k < |s| && k <= more
    requires forall i :: 0 <= i < k ==> !IsLast(s[i])
    ensures IsLast(s[k]) ==>
              Scan(s[..k + 1], more).Value? && Scan(s, more) == Value(Scan(s[..k + 1], more).n, s[k + 1..])
    ensures !IsLast(s[k]) && k == more ==> Scan(s, more) == Overflow
    ensures !IsLast(s[k]) && k + 1 == |s| && k < more ==> Scan(s, more) == Insufficient
  {
    if k > 0 {
      ScanStops(s[1..], k - 1, more - 1);
      assert s[..k + 1][1..] == s[1..][..k];
      assert s[1..][k..] == s[k + 1..];
    }
  }
}
