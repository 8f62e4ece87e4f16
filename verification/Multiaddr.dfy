/** Multiaddresses: a byte string of components, edited and walked in place. */
module Multiaddr {
  import opened Bytes
  import P = MultiaddrProtocol

  type Protocol = P.Protocol

  /** The components of a byte string, when it is a sequence of them. */
  function Components(bytes: seq<Byte>): (r: Option<seq<Protocol>>)
    ensures r.Some? ==> (r.value == [] <==> bytes == [])
    decreases |bytes|
  {
    if bytes == [] then Some([])
    else
      match P.FromBytes(bytes)
      case Err(_) => None
      case Ok((p, rest)) =>
        match Components(rest)
        case None => None
        case Some(ps) => Some([p] + ps)
  }

  predicate Valid(bytes: seq<Byte>) {
    Components(bytes).Some?
  }

  function Concat(ps: seq<Protocol>): seq<Byte> {
    if ps == [] then [] else P.ToBytes(ps[0]) + Concat(ps[1..])
  }

  /** Collecting components and walking the bytes gives the components back. */
  lemma {:induction false} CollectThenIterate(ps: seq<Protocol>)
    ensures Components(Concat(ps)) == Some(ps)
  {
    hide P.FromBytes, P.ToBytes;
    if ps != [] {
      P.RoundTrip(ps[0], Concat(ps[1..]));
      CollectThenIterate(ps[1..]);
      assert [ps[0]] + ps[1..] == ps;
    }
  }

  /** Whatever follows, a valid prefix keeps its components. */
  lemma {:induction false} ComponentsAppend(b: seq<Byte>, c: seq<Byte>)
    requires Valid(b)
    ensures Components(b + c) ==
            if Valid(c) then Some(Components(b).value + Components(c).value) else None
    decreases |b|
  {
    hide P.FromBytes, P.Consumed;
    if b == [] {
      assert b + c == c;
      if Valid(c) { assert [] + Components(c).value == Components(c).value; }
    } else {
      var (p, rest) := P.FromBytes(b).value;
      P.SelfDelimiting(b, rest + c);
      assert b + c == P.Consumed(b) + (rest + c);
      ComponentsAppend(rest, c);
      if Valid(c) {
        assert [p] + (Components(rest).value + Components(c).value) ==
               [p] + Components(rest).value + Components(c).value;
      }
    }
  }

  lemma OneComponent(p: Protocol)
    ensures Components(P.ToBytes(p)) == Some([p])
  {
    hide P.FromBytes, P.ToBytes;
    P.RoundTrip(p, []);
    assert P.ToBytes(p) + [] == P.ToBytes(p);
    assert Components([]) == Some([]) && [p] + [] == [p];
  }

  /** What the first decoding took is one component by itself. */
  lemma FirstComponent(bytes: seq<Byte>)
    requires P.FromBytes(bytes).Ok?
    ensures bytes == P.Consumed(bytes) + P.FromBytes(bytes).value.1
    ensures Components(P.Consumed(bytes)) == Some([P.FromBytes(bytes).value.0])
  {
    hide P.FromBytes, P.Consumed;
    P.SelfDelimiting(bytes, []);
    assert P.Consumed(bytes) + [] == P.Consumed(bytes);
    assert Components([]) == Some([]);
    var p := P.FromBytes(bytes).value.0;
    assert [p] + [] == [p];
  }

  /** Where the last component starts. */
  function LastStart(bytes: seq<Byte>): (k: nat)
    requires Valid(bytes) && bytes != []
    ensures k < |bytes|
    decreases |bytes|
  {
    var rest := P.FromBytes(bytes).value.1;
    if rest == [] then 0 else |bytes| - |rest| + LastStart(rest)
  }

  lemma {:induction false} LastStartSplits(bytes: seq<Byte>)
    requires Valid(bytes) && bytes != []
    ensures var k := LastStart(bytes);
            var ps := Components(bytes).value;
            && Components(bytes[..k]) == Some(ps[..|ps| - 1])
            && Components(bytes[k..]) == Some([ps[|ps| - 1]])
    decreases |bytes|
  {
    hide P.FromBytes, P.Consumed;
    var (p, rest) := P.FromBytes(bytes).value;
    FirstComponent(bytes);
    var k := LastStart(bytes);
    var ps := Components(bytes).value;
    if rest == [] {
      assert bytes[..0] == [] && bytes[0..] == bytes;
      assert Components(rest) == Some([]) && ps == [p];
    } else {
      LastStartSplits(rest);
      var j := LastStart(rest);
      var qs := Components(rest).value;
      var c := P.Consumed(bytes);
      assert |c| == |bytes| - |rest|;
      assert bytes[..k] == c + rest[..j];
      assert bytes[k..] == rest[j..];
      ComponentsAppend(c, rest[..j]);
      assert ps[..|ps| - 1] == [p] + qs[..|qs| - 1];
    }
  }

  lemma {:induction false} LastStartAppend(b: seq<Byte>, p: Protocol)
    requires Valid(b)
    ensures Valid(b + P.ToBytes(p)) && LastStart(b + P.ToBytes(p)) == |b|
    decreases |b|
  {
    hide P.FromBytes, P.Consumed, P.ToBytes;
    OneComponent(p);
    ComponentsAppend(b, P.ToBytes(p));
    if b == [] {
      assert b + P.ToBytes(p) == P.ToBytes(p);
      P.RoundTrip(p, []);
      assert P.ToBytes(p) + [] == P.ToBytes(p);
    } else {
      var rest := P.FromBytes(b).value.1;
      LastStartAppend(rest, p);
      P.SelfDelimiting(b, rest + P.ToBytes(p));
      assert b + P.ToBytes(p) == P.Consumed(b) + (rest + P.ToBytes(p));
    }
  }

  /** Pop undoes push, byte for byte. */
  lemma PopUndoesPush(b: seq<Byte>, p: Protocol)
    requires Valid(b)
    ensures var pushed := b + P.ToBytes(p);
            && Components(pushed) == Some(Components(b).value + [p])
            && pushed[..LastStart(pushed)] == b
  {
    hide P.ToBytes, P.FromBytes;
    OneComponent(p);
    ComponentsAppend(b, P.ToBytes(p));
    LastStartAppend(b, p);
  }

  class Multiaddr {
    var bytes: seq<Byte>

    ghost predicate IsValid()
      reads this
    {
      Valid(bytes)
    }

    constructor Empty()
      ensures bytes == [] && IsValid()
    {
      bytes := [];
    }

    /** From bytes that `TryFrom` accepted or `FromIterator` collected. */
    constructor Of(bytes: seq<Byte>)
      requires Valid(bytes)
      ensures this.bytes == bytes && IsValid()
    {
      this.bytes := bytes;
    }

    method Push(p: Protocol)
      requires IsValid()
      modifies this
      ensures bytes == old(bytes) + P.ToBytes(p)
      ensures Components(bytes) == Some(Components(old(bytes)).value + [p])
    {
      PopUndoesPush(bytes, p);
      bytes := P.WriteBytes(p, bytes);
    }

    /** Every decoding on the way to the last component succeeds. */
    method Pop() returns (r: Option<Protocol>)
      requires IsValid()
      modifies this
      ensures IsValid()
      ensures old(bytes) == [] ==> r == None && bytes == []
      ensures old(bytes) != [] ==>
                var ps := Components(old(bytes)).value;
                && r == Some(ps[|ps| - 1])
                && bytes == old(bytes)[..LastStart(old(bytes))]
                && Components(bytes) == Some(ps[..|ps| - 1])
    {
      hide P.FromBytes;
      var slice := bytes;
      if slice == [] { return None; }
      LastStartSplits(bytes);
      ghost var ps := Components(bytes).value;
      var last: Protocol;
      while true
        invariant slice != [] && Valid(slice) && |slice| <= |bytes| && bytes == old(bytes)
        invariant |bytes| - |slice| + LastStart(slice) == LastStart(bytes)
        invariant Components(slice).value[|Components(slice).value| - 1] == ps[|ps| - 1]
        decreases |slice|
      {
        var decoded := P.FromBytes(slice);
        assert decoded.Ok?;
        var (p, s) := decoded.value;
        if s == [] {
          last := p;
          assert Components(s) == Some([]);
          break;
        }
        slice := s;
      }
      var remaining := |bytes| - |slice|;
      bytes := bytes[..remaining];
      return Some(last);
    }

    /** A copy whose component `at` is replaced by what `change` makes of it. */
    method Replace(at: nat, change: Protocol -> Option<Protocol>) returns (r: Option<seq<Byte>>)
      requires IsValid()
      ensures var ps := Components(bytes).value;
              if at < |ps| && change(ps[at]).Some?
              then
                var qs := ps[at := change(ps[at]).value];
                r == Some(Concat(qs)) && Components(Concat(qs)) == Some(qs)
              else r == None
    {
      hide P.FromBytes, P.ToBytes, Concat, Components;
      var address, replaced := [], false;
      var iter := new Iter(bytes);
      var i: nat := 0;
      ghost var ps := Components(bytes).value;
      NoneConcat();
      assert ps[0..] == ps && ps[..0] == [];
      while true
        invariant fresh(iter) && i <= |ps| && Components(iter.slice) == Some(ps[i..])
        invariant replaced <==> at < i
        invariant Changes(ps[..i], at, change) && address == Concat(Edit(ps[..i], at, change))
        decreases |ps| - i
      {
        var next := iter.Next();
        if next.None? { break; }
        var p := next.value;
        assert p == ps[i] && ps[i..][1..] == ps[i + 1..] && ps[..i + 1] == ps[..i] + [p];
        if i == at {
          var q := change(p);
          if q.None? { return None; }
          EditSnoc(ps[..i], p, at, change);
          address := P.WriteBytes(q.value, address);
          replaced := true;
        } else {
          EditSnoc(ps[..i], p, at, change);
          address := P.WriteBytes(p, address);
        }
        i := i + 1;
      }
      assert ps[..|ps|] == ps;
      if replaced {
        CollectThenIterate(ps[at := change(ps[at]).value]);
        return Some(address);
      }
      return None;
    }
  }

  /** The component at `at`, if there is one, is changed into something. */
  predicate Changes(ps: seq<Protocol>, at: nat, change: Protocol -> Option<Protocol>) {
    at < |ps| ==> change(ps[at]).Some?
  }

  function Edit(ps: seq<Protocol>, at: nat, change: Protocol -> Option<Protocol>): seq<Protocol>
    requires Changes(ps, at, change)
  {
    if at < |ps| then ps[at := change(ps[at]).value] else ps
  }

  lemma EditSnoc(ps: seq<Protocol>, p: Protocol, at: nat, change: Protocol -> Option<Protocol>)
    requires Changes(ps, at, change) && (|ps| == at ==> change(p).Some?)
    ensures Changes(ps + [p], at, change)
    ensures Concat(Edit(ps + [p], at, change)) ==
            Concat(Edit(ps, at, change)) + P.ToBytes(if |ps| == at then change(p).value else p)
  {
    hide P.ToBytes, Concat;
    var q := if |ps| == at then change(p).value else p;
    assert Edit(ps + [p], at, change) == Edit(ps, at, change) + [q];
    ConcatSnoc(Edit(ps, at, change), q);
  }

  lemma NoneConcat()
    ensures Concat([]) == []
  {
  }

  /** The walk over a multiaddress. */
  class Iter {
    var slice: seq<Byte>

    constructor (bytes: seq<Byte>)
      ensures slice == bytes
    {
      slice := bytes;
    }

    /** The decoding inside never fails. */
    method Next() returns (r: Option<Protocol>)
      requires Valid(slice)
      modifies this
      ensures old(Components(slice)).value == [] ==> r == None && slice == []
      ensures old(Components(slice)).value != [] ==>
                && r == Some(old(Components(slice)).value[0])
                && Components(slice) == Some(old(Components(slice)).value[1..])
    {
      hide P.FromBytes;
      if slice == [] { return None; }
      var decoded := P.FromBytes(slice);
      assert decoded.Ok?;
      var (p, next) := decoded.value;
      slice := next;
      return Some(p);
    }
  }

  lemma {:induction false} ConcatSnoc(ps: seq<Protocol>, p: Protocol)
    ensures Concat(ps + [p]) == Concat(ps) + P.ToBytes(p)
  {
    hide P.ToBytes;
    if ps == [] {
      assert ps + [p] == [p] && [p][1..] == [];
      assert P.ToBytes(p) + [] == P.ToBytes(p) && [] + P.ToBytes(p) == P.ToBytes(p);
    } else {
      ConcatSnoc(ps[1..], p);
      assert (ps + [p])[1..] == ps[1..] + [p];
    }
  }

  method FromIterator(ps: seq<Protocol>) returns (bytes: seq<Byte>)
    ensures bytes == Concat(ps) && Components(bytes) == Some(ps)
  {
    hide P.ToBytes, Components;
    bytes := [];
    for i := 0 to |ps|
      invariant bytes == Concat(ps[..i])
    {
      ConcatSnoc(ps[..i], ps[i]);
      assert ps[..i + 1] == ps[..i] + [ps[i]];
      bytes := P.WriteBytes(ps[i], bytes);
    }
    assert ps[..|ps|] == ps;
    CollectThenIterate(ps);
  }

  /** Accepts exactly the byte strings that are sequences of components, and keeps the bytes. */
  method TryFrom(v: seq<Byte>) returns (r: Option<seq<Byte>>)
    ensures r == if Valid(v) then Some(v) else None
  {
    hide P.FromBytes;
    var slice := v;
    while slice != []
      invariant Valid(slice) <==> Valid(v)
      decreases |slice|
    {
      var decoded := P.FromBytes(slice);
      if decoded.Err? { return None; }
      slice := decoded.value.1;
    }
    return Some(v);
  }
}
