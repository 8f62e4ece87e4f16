/** The texts of an address are exactly the UTF-8 encodings of sequences of Unicode scalar values (RFC 3629). */
module Utf8 {
  import opened Bytes
  import opened MultiaddrProtocol

  predicate Scalar(c: nat) {
    c < 0xd800 || 0xe000 <= c < 0x11_0000
  }

  function Encoded(c: nat): (s: seq<Byte>)
    requires Scalar(c)
    ensures 1 <= |s| <= 4
  {
    if c < 0x80 then [c]
    else if c < 0x800 then [0xc0 + c / 64, 0x80 + c % 64]
    else if c < 0x1_0000 then [0xe0 + c / 4096, 0x80 + c / 64 % 64, 0x80 + c % 64]
    else [0xf0 + c / 26_2144, 0x80 + c / 4096 % 64, 0x80 + c / 64 % 64, 0x80 + c % 64]
  }

  /** What one step of the syntax takes: the length of the character at the front, or nothing. */
  function Step(s: seq<Byte>): (n: nat)
    ensures n <= |s| && n <= 4
  {
    if s == [] then 0
    else if s[0] < 0x80 then 1
    else if |s| >= 2 && 0xc2 <= s[0] <= 0xdf && Continuation(s[1]) then 2
    else if |s| >= 3 && ThreeByteStart(s[0], s[1]) && Continuation(s[2]) then 3
    else if |s| >= 4 && FourByteStart(s[0], s[1]) && Continuation(s[2]) && Continuation(s[3]) then 4
    else 0
  }

  lemma ValidByStep(s: seq<Byte>)
    ensures ValidUtf8(s) <==> s == [] || (Step(s) > 0 && ValidUtf8(s[Step(s)..]))
  {
  }

  /** What a byte adds to its character, under the mark in its high bits. */
  function Bits(b: Byte, mark: int): int { b - mark }

  /** The character at the front of a valid text. */
  function First(s: seq<Byte>): nat
    requires Step(s) > 0
  {
    match Step(s)
    case 1 => s[0]
    case 2 => Bits(s[0], 0xc0) * 64 + Bits(s[1], 0x80)
    case 3 => Bits(s[0], 0xe0) * 4096 + Bits(s[1], 0x80) * 64 + Bits(s[2], 0x80)
    case _ => Bits(s[0], 0xf0) * 26_2144 + Bits(s[1], 0x80) * 4096 + Bits(s[2], 0x80) * 64 + Bits(s[3], 0x80)
  }

  lemma StepTakesOne(s: seq<Byte>)
    requires Step(s) > 0
    ensures Scalar(First(s)) && Encoded(First(s)) == s[..Step(s)]
  {
    match Step(s)
    case 1 =>
    case 2 => TakesTwo(s);
    case 3 => TakesThree(s);
    case _ => TakesFour(s);
  }

  lemma TakesTwo(s: seq<Byte>)
    requires Step(s) == 2
    ensures Scalar(First(s)) && Encoded(First(s)) == s[..2]
  {
    var a: nat, b: nat := s[0] - 0xc0, s[1] - 0x80;
    assert First(s) == a * 64 + b && First(s) / 64 == a && First(s) % 64 == b;
  }

  lemma TakesThree(s: seq<Byte>)
    requires Step(s) == 3
    ensures Scalar(First(s)) && Encoded(First(s)) == s[..3]
  {
    var a: nat, b: nat, c: nat := s[0] - 0xe0, s[1] - 0x80, s[2] - 0x80;
    assert First(s) == (a * 64 + b) * 64 + c;
    assert First(s) / 64 == a * 64 + b && First(s) % 64 == c && First(s) / 4096 == a && (a * 64 + b) % 64 == b;
  }

  lemma TakesFour(s: seq<Byte>)
    requires Step(s) == 4
    ensures Scalar(First(s)) && Encoded(First(s)) == s[..4]
  {
    var a: nat, b: nat, c: nat, d: nat := s[0] - 0xf0, s[1] - 0x80, s[2] - 0x80, s[3] - 0x80;
    assert First(s) == ((a * 64 + b) * 64 + c) * 64 + d;
    assert First(s) / 64 == (a * 64 + b) * 64 + c && First(s) % 64 == d;
    assert First(s) / 4096 == a * 64 + b && ((a * 64 + b) * 64 + c) % 64 == c;
    assert First(s) / 26_2144 == a && (a * 64 + b) % 64 == b;
  }

  lemma TwoAreTaken(c: nat, rest: seq<Byte>)
    requires 0x80 <= c < 0x800
    ensures Step(Encoded(c) + rest) == 2
  {
    var s := Encoded(c) + rest;
    assert s[0] == 0xc0 + c / 64 && s[1] == 0x80 + c % 64;
  }

  lemma ThreeAreTaken(c: nat, rest: seq<Byte>)
    requires 0x800 <= c < 0x1_0000 && Scalar(c)
    ensures Step(Encoded(c) + rest) == 3
  {
    var s := Encoded(c) + rest;
    assert s[0] == 0xe0 + c / 4096 && s[1] == 0x80 + c / 64 % 64 && s[2] == 0x80 + c % 64;
  }

  lemma FourAreTaken(c: nat, rest: seq<Byte>)
    requires 0x1_0000 <= c && Scalar(c)
    ensures Step(Encoded(c) + rest) == 4
  {
    var s := Encoded(c) + rest;
    assert s[0] == 0xf0 + c / 26_2144 && s[1] == 0x80 + c / 4096 % 64;
    assert s[2] == 0x80 + c / 64 % 64 && s[3] == 0x80 + c % 64;
  }

  /** And a scalar value at the front is taken whole. */
  lemma OneIsTaken(c: nat, rest: seq<Byte>)
    requires Scalar(c)
    ensures Step(Encoded(c) + rest) == |Encoded(c)|
  {
    if c >= 0x1_0000 {
      FourAreTaken(c, rest);
    } else if c >= 0x800 {
      ThreeAreTaken(c, rest);
    } else if c >= 0x80 {
      TwoAreTaken(c, rest);
    }
  }

  predicate Scalars(cs: seq<nat>) {
    forall i :: 0 <= i < |cs| ==> Scalar(cs[i])
  }

  function TextOfScalars(cs: seq<nat>): seq<Byte>
    requires Scalars(cs)
  {
    if cs == [] then [] else Encoded(cs[0]) + TextOfScalars(cs[1..])
  }

  lemma {:induction false} EncodingsAreValid(cs: seq<nat>)
    requires Scalars(cs)
    ensures ValidUtf8(TextOfScalars(cs))
  {
    hide ValidUtf8, Encoded;
    var s := TextOfScalars(cs);
    ValidByStep(s);
    if cs != [] {
      OneIsTaken(cs[0], TextOfScalars(cs[1..]));
      EncodingsAreValid(cs[1..]);
      assert s[|Encoded(cs[0])|..] == TextOfScalars(cs[1..]);
    }
  }

  lemma {:induction false} ValidIsEncoded(s: seq<Byte>) returns (cs: seq<nat>)
    requires ValidUtf8(s)
    ensures Scalars(cs) && TextOfScalars(cs) == s
    decreases |s|
  {
    hide ValidUtf8, Encoded, First;
    ValidByStep(s);
    if s == [] {
      cs := [];
    } else {
      StepTakesOne(s);
      var later := ValidIsEncoded(s[Step(s)..]);
      cs := [First(s)] + later;
      assert cs[1..] == later;
      assert s == s[..Step(s)] + s[Step(s)..];
    }
  }

  /** A payload is accepted as a text exactly when it encodes scalar values. */
  lemma AcceptedIffEncoding(s: seq<Byte>)
    ensures ValidUtf8(s) <==> exists cs :: Scalars(cs) && TextOfScalars(cs) == s
  {
    if ValidUtf8(s) {
      var cs := ValidIsEncoded(s);
    }
    if cs :| Scalars(cs) && TextOfScalars(cs) == s {
      EncodingsAreValid(cs);
    }
  }
}
