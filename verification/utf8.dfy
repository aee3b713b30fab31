/** UTF-8 of core/os/kernal_encode.cpp, between bytes and 16-bit units. */
module Utf8 {
  import opened Bytes
  import Arith

  type unit = u: int | 0 <= u < 0x1_0000

  // ----- encoding

  /** One unit as one, two or three bytes (section 3 of RFC 3629); halves of a surrogate pair
      are encoded each by itself. */
  function EncodeUnit(c: unit): (s: seq<byte>)
    ensures |s| == UnitLength(c)
  {
    if c <= 0x7f then [c]
    else if c > 0x7ff then [0xe0 + c / 0x1000, 0x80 + c / 64 % 64, 0x80 + c % 64]
    else [0xc0 + c / 64, 0x80 + c % 64]
  }

  function UnitLength(c: unit): nat { if c <= 0x7f then 1 else if c > 0x7ff then 3 else 2 }

  function Encode(u: seq<unit>): (s: seq<byte>) {
    if u == [] then [] else Encode(u[..|u| - 1]) + EncodeUnit(u[|u| - 1])
  }

  lemma {:induction false} EncodeConcat(u: seq<unit>, v: seq<unit>)
    ensures Encode(u + v) == Encode(u) + Encode(v)
  {
    hide EncodeUnit;
    if v == [] {
      assert u + v == u;
    } else {
      var n := |v| - 1;
      EncodeConcat(u, v[..n]);
      var w := u + v;
      assert w[..|w| - 1] == u + v[..n] && w[|w| - 1] == v[n];
      assert Encode(w) == Encode(w[..|w| - 1]) + EncodeUnit(w[|w| - 1]);
    }
  }

  // ----- decoding

  /** How far a lead byte moves the reader; a byte that leads nothing is stepped over. */
  function Width(c: byte): (n: nat)
    ensures n > 0
  {
    if c <= 0x7f then 1 else if c / 16 == 0xe then 3 else if c / 32 == 6 then 2 else 1
  }

  predicate Leads(c: byte) { c <= 0x7f || c / 16 == 0xe || c / 32 == 6 }

  /** No sequence is cut off by the end of the text. */
  predicate Complete(s: seq<byte>)
    decreases |s|
  {
    s == [] || (Width(s[0]) <= |s| && Complete(s[Width(s[0])..]))
  }

  function DecodeUnit(s: seq<byte>): (r: Option<unit>)
    requires s != [] && Width(s[0]) <= |s|
  {
    var c: int := s[0];
    if c <= 0x7f then Some(c)
    else if c / 16 == 0xe then Some(c % 16 * 0x1000 + s[1] as int % 64 * 64 + s[2] as int % 64)
    else if c / 32 == 6 then Some(c % 32 * 64 + s[1] as int % 64)
    else None
  }

  /** One cell per step; None stands for a cell that is stepped over without being written.
      A last sequence that is cut off is completed from the bytes `behind` the text. */
  function Decode(s: seq<byte>, behind: seq<byte>): (r: seq<Option<unit>>)
    requires |behind| >= 2
    decreases |s|
  {
    if s == [] then [] else [DecodeUnit(s + behind)] + Decode(Rest(s), behind)
  }

  /** What is left after one step. */
  function Rest(s: seq<byte>): (r: seq<byte>)
    requires s != []
    ensures |r| < |s|
  {
    if Width(s[0]) < |s| then s[Width(s[0])..] else []
  }

  /** The same steps, counted; a cut-off last sequence counts as one. */
  function DecodeLength(s: seq<byte>): nat
    decreases |s|
  {
    if s == [] then 0 else if Width(s[0]) >= |s| then 1 else 1 + DecodeLength(s[Width(s[0])..])
  }

  lemma {:induction false} DecodeLengthExact(s: seq<byte>, behind: seq<byte>)
    requires |behind| >= 2
    ensures |Decode(s, behind)| == DecodeLength(s)
    decreases |s|
  {
    hide DecodeUnit, Width;
    if s != [] { DecodeLengthExact(Rest(s), behind); }
  }

  /** What lies behind a text matters to its decoding only if the text is cut off. */
  lemma {:induction false} BehindUnread(s: seq<byte>, a: seq<byte>, b: seq<byte>)
    requires Complete(s) && |a| >= 2 && |b| >= 2
    ensures Decode(s, a) == Decode(s, b)
    decreases |s|
  {
    hide Width, DecodeUnit;
    if s != [] {
      assert Rest(s) == s[Width(s[0])..];
      BehindUnread(Rest(s), a, b);
      UnitWithin(s, a);
      UnitWithin(s, b);
    }
  }

  lemma UnitWithin(s: seq<byte>, a: seq<byte>)
    requires s != [] && Width(s[0]) <= |s|
    ensures (s + a)[0] == s[0] && DecodeUnit(s + a) == DecodeUnit(s)
  {
  }

  // ----- round trip

  lemma UnitRoundTrip(c: unit, rest: seq<byte>)
    ensures var s := EncodeUnit(c) + rest;
            Width(s[0]) == UnitLength(c) <= |s| && s[Width(s[0])..] == rest && DecodeUnit(s) == Some(c)
  {
    var e := EncodeUnit(c);
    var s := e + rest;
    LeadByte(c);
    assert s[0] == e[0] && (|e| > 1 ==> s[1] == e[1]) && (|e| > 2 ==> s[2] == e[2]);
    UnitBack(c);
  }

  lemma LeadByte(c: unit)
    ensures Width(EncodeUnit(c)[0]) == UnitLength(c)
  {
  }

  lemma UnitBack(c: unit)
    ensures Width(EncodeUnit(c)[0]) <= |EncodeUnit(c)| && DecodeUnit(EncodeUnit(c)) == Some(c)
  {
    if c > 0x7ff {
      ThreeBack(c);
    } else if c > 0x7f {
      TwoBack(c);
    }
  }

  lemma ThreeBack(c: unit)
    requires c > 0x7ff
    ensures DecodeUnit([0xe0 + c / 0x1000, 0x80 + c / 64 % 64, 0x80 + c % 64]) == Some(c)
  {
    var h, m, l := c / 0x1000, c / 64 % 64, c % 64;
    assert c / 64 / 64 == h;
    Arith.DivModUnique(0xe0 + h, 16, 0xe, h);
    Arith.DivModUnique(0x80 + m, 64, 2, m);
    Arith.DivModUnique(0x80 + l, 64, 2, l);
  }

  lemma TwoBack(c: unit)
    requires 0x7f < c <= 0x7ff
    ensures DecodeUnit([0xc0 + c / 64, 0x80 + c % 64]) == Some(c)
  {
    var h, l := c / 64, c % 64;
    Arith.DivModUnique(0xc0 + h, 32, 6, h);
    Arith.DivModUnique(0x80 + l, 64, 2, l);
  }

  function AllWritten(u: seq<unit>): (r: seq<Option<unit>>)
    ensures |r| == |u|
  {
    seq(|u|, i requires 0 <= i < |u| => Some(u[i]))
  }

  /** Decoding undoes encoding for every sequence of units, and both length functions agree
      with what is written. */
  lemma {:induction false} DecodeEncoded(u: seq<unit>, behind: seq<byte>)
    requires |behind| >= 2
    ensures Complete(Encode(u)) && Decode(Encode(u), behind) == AllWritten(u)
    ensures DecodeLength(Encode(u)) == |u|
  {
    hide Encode, EncodeUnit, DecodeUnit, Width, AllWritten, DecodeLength;
    if u == [] {
      NothingEncoded();
    } else {
      EncodeFirst(u);
      UnitRoundTrip(u[0], Encode(u[1..]));
      UnitWithin(Encode(u), behind);
      DecodeEncoded(u[1..], behind);
      assert Rest(Encode(u)) == Encode(u[1..]);
      AllWrittenFirst(u);
    }
    DecodeLengthExact(Encode(u), behind);
  }

  lemma NothingEncoded()
    ensures Encode([]) == [] && AllWritten([]) == []
  {
  }

  lemma EncodeFirst(u: seq<unit>)
    requires u != []
    ensures Encode(u) == EncodeUnit(u[0]) + Encode(u[1..])
  {
    hide EncodeUnit;
    EncodeConcat(u[..1], u[1..]);
    assert u == u[..1] + u[1..];
    EncodeOne(u[0]);
    assert [u[0]] == u[..1];
  }

  lemma AllWrittenFirst(u: seq<unit>)
    requires u != []
    ensures AllWritten(u) == [Some(u[0])] + AllWritten(u[1..]) && |AllWritten(u)| == |u|
  {
  }

  lemma EncodeOne(c: unit)
    ensures Encode([c]) == EncodeUnit(c)
  {
    assert [c][..0] == [];
  }

  /** The first example of section 7 of RFC 3629: A, not identical to, Alpha, full stop. */
  lemma Example()
    ensures Encode([0x41, 0x2262, 0x391, 0x2e]) == [0x41, 0xe2, 0x89, 0xa2, 0xce, 0x91, 0x2e]
  {
    hide Encode, EncodeUnit;
    ExampleUnits();
    EncodeOne(0x41);
    EncodeOne(0x2262);
    EncodeOne(0x391);
    EncodeOne(0x2e);
    EncodeConcat([0x41], [0x2262]);
    EncodeConcat([0x41, 0x2262], [0x391]);
    EncodeConcat([0x41, 0x2262, 0x391], [0x2e]);
    assert [0x41] + [0x2262] == [0x41, 0x2262] && [0x41, 0x2262] + [0x391] == [0x41, 0x2262, 0x391];
    assert [0x41, 0x2262, 0x391] + [0x2e] == [0x41, 0x2262, 0x391, 0x2e];
  }

  lemma ExampleUnits()
    ensures EncodeUnit(0x41) == [0x41] && EncodeUnit(0x2262) == [0xe2, 0x89, 0xa2]
    ensures EncodeUnit(0x391) == [0xce, 0x91] && EncodeUnit(0x2e) == [0x2e]
  {
  }

  /** A byte that leads nothing takes one cell, left unwritten, and one step. */
  lemma StrayByteSkipped(c: byte, s: seq<byte>, behind: seq<byte>)
    requires 0x80 <= c < 0xc0 || c >= 0xf0
    requires |behind| >= 2
    ensures Decode([c] + s, behind) == [None] + Decode(s, behind)
  {
    hide Decode;
    var t := [c] + s;
    DecodeNext(t, behind);
    assert t[1..] == s;
  }

  /** Decoding leaves no cell unwritten exactly when every step starts at a lead byte. */
  lemma {:induction false} EveryCellWritten(s: seq<byte>, behind: seq<byte>)
    requires |behind| >= 2
    ensures (forall i :: 0 <= i < |Decode(s, behind)| ==> Decode(s, behind)[i].Some?) <==> LeadsThroughout(s)
    decreases |s|
  {
    hide DecodeUnit, Width;
    if s != [] {
      var rest := Decode(Rest(s), behind);
      EveryCellWritten(Rest(s), behind);
      WrittenIfLead(s, behind);
      FirstFits(s, behind);
      var d := Decode(s, behind);
      assert d == [DecodeUnit(s + behind)] + rest;
      assert forall i :: 0 <= i < |rest| ==> rest[i] == d[i + 1];
      if forall i :: 0 <= i < |d| ==> d[i].Some? {
        assert d[0].Some?;
        forall i | 0 <= i < |rest| ensures rest[i].Some? { assert d[i + 1].Some?; }
      }
      if LeadsThroughout(s) {
        forall i | 0 <= i < |d| ensures d[i].Some? { if i > 0 { assert d[i] == rest[i - 1]; } }
      }
    }
  }

  lemma WrittenIfLead(s: seq<byte>, behind: seq<byte>)
    requires s != [] && |behind| >= 2
    ensures (s + behind)[0] == s[0] && (DecodeUnit(s + behind).Some? <==> Leads(s[0]))
  {
  }

  predicate LeadsThroughout(s: seq<byte>)
    decreases |s|
  {
    s == [] || (Leads(s[0]) && LeadsThroughout(Rest(s)))
  }

  // ----- the loops

  method UTF8EncodeLength(u: seq<unit>) returns (n: nat)
    ensures n == |Encode(u)|
  {
    hide EncodeUnit;
    n := 0;
    var i := 0;
    while i < |u|
      invariant 0 <= i <= |u| && n == |Encode(u[..i])|
    {
      assert u[..i + 1][..i] == u[..i];
      n := n + UnitLength(u[i]);
      i := i + 1;
    }
    assert u[..i] == u;
  }

  /** A unit of three bytes is stored as a 32-bit word, whose last byte is overwritten by the
      next unit; after the last unit it spills. */
  function Spill(u: seq<unit>): nat { if u != [] && u[|u| - 1] > 0x7ff then 1 else 0 }

  method UTF8Encode(u: seq<unit>, dst: array<byte>) returns (n: nat)
    requires dst.Length >= |Encode(u)| + Spill(u)
    modifies dst
    ensures n == |Encode(u)| && dst[..n] == Encode(u)
    ensures dst[n + Spill(u)..] == old(dst[n + Spill(u)..])
  {
    hide EncodeUnit, Encode;
    n := 0;
    EncodeNone();
    ghost var was := dst[..];
    var i := 0;
    while i < |u|
      invariant 0 <= i <= |u| && n == |Encode(u[..i])| && n + Spill(u[..i]) <= dst.Length == |was|
      invariant dst[..n] == Encode(u[..i])
      invariant dst[n + Spill(u[..i])..] == was[n + Spill(u[..i])..]
    {
      EncodeNext(u, i);
      PrefixFits(u, i + 1);
      ghost var m := n;
      ghost var before := dst[..n];
      n := StoreUnit(dst, n, u[i]);
      assert dst[..n] == before + EncodeUnit(u[i]);
      i := i + 1;
    }
    assert u[..i] == u;
  }

  method StoreUnit(dst: array<byte>, o: nat, c: unit) returns (n: nat)
    requires o + UnitLength(c) + Spill([c]) <= dst.Length
    modifies dst
    ensures n == o + UnitLength(c)
    ensures dst[..n] == old(dst[..o]) + EncodeUnit(c)
    ensures dst[n + Spill([c])..] == old(dst[n + Spill([c])..])
  {
    if c <= 0x7f {
      dst[o] := c;
      n := o + 1;
    } else if c > 0x7ff {
      dst[o], dst[o + 1], dst[o + 2], dst[o + 3] := 0xe0 + c / 0x1000, 0x80 + c / 64 % 64, 0x80 + c % 64, 0;
      n := o + 3;
    } else {
      dst[o], dst[o + 1] := 0xc0 + c / 64, 0x80 + c % 64;
      n := o + 2;
    }
  }

  lemma EncodeNone()
    ensures Encode([]) == []
  {
  }

  lemma EncodeNext(u: seq<unit>, i: nat)
    requires i < |u|
    ensures Encode(u[..i + 1]) == Encode(u[..i]) + EncodeUnit(u[i])
    ensures Spill(u[..i + 1]) == Spill([u[i]])
  {
    assert u[..i + 1][..i] == u[..i];
  }

  /** The bytes of a prefix, spill included, lie within those of the whole. */
  lemma PrefixFits(u: seq<unit>, i: nat)
    requires i <= |u|
    ensures |Encode(u[..i])| + Spill(u[..i]) <= |Encode(u)| + Spill(u)
  {
    assert u == u[..i] + u[i..];
    EncodeConcat(u[..i], u[i..]);
    if i < |u| {
      EncodeNonempty(u[i..]);
    }
  }

  lemma EncodeNonempty(u: seq<unit>)
    requires u != []
    ensures Encode(u) != []
  {
  }

  method UTF8DecodeLength(s: seq<byte>) returns (n: nat)
    ensures n == DecodeLength(s)
  {
    hide Width;
    n := 0;
    var i := 0;
    while i < |s|
      invariant 0 <= i && DecodeLength(s) == n + if i < |s| then DecodeLength(s[i..]) else 0
      decreases |s| - i
    {
      ghost var t := s[i..];
      assert i + Width(s[i]) < |s| ==> t[Width(s[i])..] == s[i + Width(s[i])..];
      i := i + Width(s[i]);
      n := n + 1;
    }
  }

  /** The loop reads the bytes behind the text when its last sequence is cut off. */
  method UTF8Decode(s: seq<byte>, behind: seq<byte>, dst: array<unit>) returns (n: nat)
    requires dst.Length >= DecodeLength(s) && |behind| >= 2
    modifies dst
    ensures n == DecodeLength(s) == |Decode(s, behind)|
    ensures forall j :: 0 <= j < n ==>
              dst[j] == if Decode(s, behind)[j].Some? then Decode(s, behind)[j].value else old(dst[j])
    ensures dst[n..] == old(dst[n..])
  {
    hide Width, Decode, DecodeUnit, DecodeLength;
    DecodeLengthExact(s, behind);
    ghost var was, d := dst[..], Decode(s, behind);
    n := 0;
    var i := 0;
    assert s[0..] == s;
    while i < |s|
      invariant 0 <= i && n <= |d| <= dst.Length == |was|
      invariant d[n..] == Decode(if i < |s| then s[i..] else [], behind)
      invariant forall j :: 0 <= j < n ==> dst[j] == if d[j].Some? then d[j].value else was[j]
      invariant dst[n..] == was[n..]
      decreases |s| - i
    {
      var mem := s[i..] + behind;
      FirstFits(s[i..], behind);
      DecodeOn(s, i, behind, d, n);
      var u := DecodeUnit(mem);
      if u.Some? { dst[n] := u.value; }
      assert dst[n + 1..] == was[n..][1..];
      i := i + Width(s[i]);
      n := n + 1;
    }
    DecodeNext([], behind);
  }

  /** One round of the decoding loop, at byte `i` of the text and cell `n` of the result. */
  lemma DecodeOn(s: seq<byte>, i: nat, behind: seq<byte>, d: seq<Option<unit>>, n: nat)
    requires i < |s| && |behind| >= 2 && n <= |d| && d[n..] == Decode(s[i..], behind)
    ensures Width((s[i..] + behind)[0]) <= |s[i..] + behind|
    ensures n < |d| && d[n] == DecodeUnit(s[i..] + behind)
    ensures var k := i + Width(s[i]); d[n + 1..] == Decode(if k < |s| then s[k..] else [], behind)
  {
    hide Width, Decode, DecodeUnit;
    DecodeNext(s[i..], behind);
    assert d[n] == d[n..][0];
    assert d[n..][1..] == d[n + 1..];
    assert i + Width(s[i]) < |s| ==> s[i..][Width(s[i])..] == s[i + Width(s[i])..];
  }

  lemma FirstFits(s: seq<byte>, behind: seq<byte>)
    requires s != [] && |behind| >= 2
    ensures (s + behind)[0] == s[0] && Width(s[0]) <= |s + behind|
  {
  }

  lemma DecodeNext(s: seq<byte>, behind: seq<byte>)
    requires |behind| >= 2
    ensures s == [] ==> Decode(s, behind) == []
    ensures s != [] ==> (s + behind)[0] == s[0] && Width(s[0]) <= |s + behind|
                        && Decode(s, behind) == [DecodeUnit(s + behind)] + Decode(Rest(s), behind)
  {
    hide DecodeUnit;
  }
}
