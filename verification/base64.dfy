/** Base64 of core/os/kernal_encode.cpp: a loop over groups of three bytes, a decoder that
    tolerates missing padding, and a length function that looks at the last two symbols. */
module Base64 {
  import opened Bytes
  import Arith

  type sextet = x: int | 0 <= x < 64

  // ----- symbols

  function Symbol(x: sextet): (c: char) {
    (if x < 26 then 'A' as int + x
     else if x < 52 then 'a' as int + (x - 26)
     else if x < 62 then '0' as int + (x - 52)
     else if x == 62 then '+' as int else '/' as int) as char
  }

  /** The reverse table of Base64Decode; -1 marks a character outside the alphabet. */
  function Rev(c: char): (x: int)
    ensures -1 <= x < 64 && (x >= 0 <==> IsB64(c))
  {
    if 'A' <= c <= 'Z' then c as int - 'A' as int
    else if 'a' <= c <= 'z' then c as int - 'a' as int + 26
    else if '0' <= c <= '9' then c as int - '0' as int + 52
    else if c == '+' then 62 else if c == '/' then 63 else -1
  }

  predicate IsB64(c: char) {
    'a' <= c <= 'z' || 'A' <= c <= 'Z' || '0' <= c <= '9' || c == '+' || c == '/'
  }

  const CAPITALS := "ABCDEFGHIJKLMNOPQRSTUVWXYZ"
  const SMALL := "abcdefghijklmnopqrstuvwxyz"
  const OTHERS := "0123456789+/"

  /** The encoding table of section 4 of RFC 4648. */
  const TABLE: string := CAPITALS + SMALL + OTHERS

  lemma SymbolTable(x: sextet)
    ensures |TABLE| == 64 && Symbol(x) == TABLE[x]
  {
    assert |CAPITALS| == 26 && |SMALL| == 26 && |OTHERS| == 12;
    if x < 26 {
      Capitals(x);
    } else if x < 52 {
      Small(x - 26);
      assert TABLE[x] == SMALL[x - 26];
    } else {
      Others(x - 52);
      assert TABLE[x] == OTHERS[x - 52];
    }
  }

  lemma Capitals(i: nat)
    requires i < 26
    ensures |CAPITALS| == 26 && CAPITALS[i] as int == 65 + i
  {
  }

  lemma Small(i: nat)
    requires i < 26
    ensures |SMALL| == 26 && SMALL[i] as int == 97 + i
  {
  }

  lemma Others(i: nat)
    requires i < 12
    ensures |OTHERS| == 12 && OTHERS[i] as int == if i < 10 then 48 + i else if i == 10 then 43 else 47
  {
  }

  /** The reverse table finds exactly the characters of that table, each at its place. */
  lemma RevTable(c: char)
    ensures |TABLE| == 64 && (Rev(c) >= 0 ==> TABLE[Rev(c)] == c) && (Rev(c) < 0 ==> c !in TABLE)
  {
    hide TABLE, Symbol;
    SymbolTable(0);
    if Rev(c) >= 0 {
      SymbolTable(Rev(c));
      RevSymbol(c);
    } else {
      forall i | 0 <= i < 64
        ensures TABLE[i] != c
      {
        SymbolTable(i);
        SymbolRev(i);
      }
    }
  }

  lemma RevSymbol(c: char)
    requires Rev(c) >= 0
    ensures Symbol(Rev(c)) == c
  {
  }

  lemma SymbolRev(x: sextet)
    ensures IsB64(Symbol(x)) && Rev(Symbol(x)) == x
  {
  }

  /** Three bytes as four sextets, and back. */
  function Sextets(x: byte, y: byte, z: byte): (q: seq<sextet>)
    ensures |q| == 4
  {
    [x / 4, x % 4 * 16 + y / 16, y % 16 * 4 + z / 64, z % 64]
  }

  function Unpack(a: sextet, b: sextet, c: sextet, d: sextet): (s: seq<byte>)
    ensures |s| == 3
  {
    [a * 4 + b / 16, b % 16 * 16 + c / 4, c % 4 * 64 + d]
  }

  lemma UnpackSextets(x: byte, y: byte, z: byte)
    ensures var q := Sextets(x, y, z); Unpack(q[0], q[1], q[2], q[3]) == [x, y, z]
  {
    Arith.DivModUnique(x % 4 * 16 + y / 16, 16, x % 4, y / 16);
    Arith.DivModUnique(y % 16 * 4 + z / 64, 4, y % 16, z / 64);
  }

  function Pack(x: byte, y: byte, z: byte): (s: string)
    ensures |s| == 4
  {
    var q := Sextets(x, y, z);
    [Symbol(q[0]), Symbol(q[1]), Symbol(q[2]), Symbol(q[3])]
  }

  lemma UnpackPacked(x: byte, y: byte, z: byte)
    ensures var s := Pack(x, y, z);
            && IsB64(s[0]) && IsB64(s[1]) && IsB64(s[2]) && IsB64(s[3])
            && Unpack(Rev(s[0]), Rev(s[1]), Rev(s[2]), Rev(s[3])) == [x, y, z]
  {
    hide Sextets, Unpack, Symbol, Rev, IsB64;
    var q := Sextets(x, y, z);
    SymbolRev(q[0]);
    SymbolRev(q[1]);
    SymbolRev(q[2]);
    SymbolRev(q[3]);
    UnpackSextets(x, y, z);
  }

  // ----- encoding

  function EncodeLength(n: nat): nat { (n + 2) / 3 * 4 }

  function Encode(d: seq<byte>): (s: string)
  {
    if |d| >= 3 then Pack(d[0], d[1], d[2]) + Encode(d[3..])
    else if |d| == 2 then Pack(d[0], d[1], 0)[..3] + "="
    else if |d| == 1 then Pack(d[0], 0, 0)[..2] + "=="
    else ""
  }

  lemma {:induction false} EncodeHasLength(d: seq<byte>)
    ensures |Encode(d)| == EncodeLength(|d|)
  {
    hide Pack, EncodeLength;
    if |d| >= 3 {
      EncodeHasLength(d[3..]);
      LengthOfGroup(|d|);
    } else {
      ShortEncodeLengths();
    }
  }

  lemma ShortEncodeLengths()
    ensures EncodeLength(0) == 0 && EncodeLength(1) == EncodeLength(2) == 4
  {
  }

  /** Bit `n` of the input, most significant bit of each byte first; zero past the end. */
  function Bit(d: seq<byte>, n: nat): (b: int)
  {
    if n / 8 >= |d| then 0 else d[n / 8] / Weight(n % 8) % 2
  }

  /** 2 to the power 7 - i. */
  function Weight(i: nat): (w: nat)
    requires i < 8
    ensures w > 0
  {
    match i
    case 0 => 128
    case 1 => 64
    case 2 => 32
    case 3 => 16
    case 4 => 8
    case 5 => 4
    case 6 => 2
    case 7 => 1
  }

  function SixBits(d: seq<byte>, n: nat): (x: int) {
    32 * Bit(d, n) + 16 * Bit(d, n + 1) + 8 * Bit(d, n + 2) + 4 * Bit(d, n + 3) + 2 * Bit(d, n + 4) + Bit(d, n + 5)
  }

  /** Section 4 of RFC 4648: symbol `j` shows bits 6j to 6j+5 of the input, zero bits filling
      the last symbol, and the text is padded with '=' to whole groups of four. */
  lemma {:induction false} EncodesSixBitGroups(d: seq<byte>, j: nat)
    requires j < |Encode(d)|
    ensures 6 * j < 8 * |d| ==> 0 <= SixBits(d, 6 * j) < 64 && Encode(d)[j] == Symbol(SixBits(d, 6 * j))
    ensures 6 * j >= 8 * |d| ==> Encode(d)[j] == '='
  {
    hide Encode, SixBits, Symbol, Pack;
    if |d| >= 3 && j >= 4 {
      EncodeGroup(d);
      assert Encode(d)[j] == Encode(d[3..])[j - 4];
      EncodesSixBitGroups(d[3..], j - 4);
      SixBitsShift(d, 6 * (j - 4));
      assert 6 * j == 6 * (j - 4) + 24;
    } else {
      EncodeHasLength(d);
      FirstGroup(d, j);
    }
  }

  lemma SixBitsShift(d: seq<byte>, n: nat)
    requires |d| >= 3
    ensures SixBits(d, n + 24) == SixBits(d[3..], n)
  {
    hide Bit;
    BitShift(d, n);
    BitShift(d, n + 1);
    BitShift(d, n + 2);
    BitShift(d, n + 3);
    BitShift(d, n + 4);
    BitShift(d, n + 5);
  }

  lemma BitShift(d: seq<byte>, n: nat)
    requires |d| >= 3
    ensures Bit(d, n + 24) == Bit(d[3..], n)
  {
    hide Weight;
    assert (n + 24) / 8 == n / 8 + 3 && (n + 24) % 8 == n % 8;
  }

  lemma FirstGroup(d: seq<byte>, j: nat)
    requires d != [] && j < 4
    ensures |Encode(d)| >= 4
    ensures 6 * j < 8 * |d| ==> 0 <= SixBits(d, 6 * j) < 64 && Encode(d)[j] == Symbol(SixBits(d, 6 * j))
    ensures 6 * j >= 8 * |d| ==> Encode(d)[j] == '='
  {
    hide Symbol, SixBits, Sextets, Encode, Pack;
    var y: byte, z: byte := if |d| > 1 then d[1] else 0, if |d| > 2 then d[2] else 0;
    FirstFour(d, y, z);
    if 6 * j < 8 * |d| {
      FirstBits(d, j);
    }
  }

  lemma FirstFour(d: seq<byte>, y: byte, z: byte)
    requires d != [] && y == (if |d| > 1 then d[1] else 0) && z == (if |d| > 2 then d[2] else 0)
    ensures |Encode(d)| >= 4
    ensures forall j :: 0 <= j < 4 && j <= |d| ==> Encode(d)[j] == Symbol(Sextets(d[0], y, z)[j])
    ensures forall j :: |d| < j < 4 ==> Encode(d)[j] == '='
  {
    hide Symbol, Sextets;
  }

  /** The sextet that the packing computes, read off the bits. */
  lemma FirstBits(d: seq<byte>, j: nat)
    requires d != [] && j < 4 && 6 * j < 8 * |d|
    ensures var y: byte, z: byte := if |d| > 1 then d[1] else 0, if |d| > 2 then d[2] else 0;
            SixBits(d, 6 * j) == Sextets(d[0], y, z)[j]
  {
    hide Bit, SixBits;
    if j == 0 {
      FirstBits0(d);
    } else if j == 1 {
      FirstBits1(d);
    } else if j == 2 {
      FirstBits2(d);
    } else {
      FirstBits3(d);
    }
  }

  /** Byte `i`, zero past the end. */
  function ByteAt(d: seq<byte>, i: nat): byte { if i < |d| then d[i] else 0 }

  lemma FirstBits0(d: seq<byte>)
    ensures SixBits(d, 0) == ByteAt(d, 0) / 4
  {
    hide Bit, ByteAt;
    BitsOf(d, 0);
    Telescope(ByteAt(d, 0));
  }

  lemma FirstBits1(d: seq<byte>)
    ensures SixBits(d, 6) == ByteAt(d, 0) % 4 * 16 + ByteAt(d, 1) / 16
  {
    hide Bit, ByteAt;
    BitsOf(d, 0);
    BitsOf(d, 1);
    Telescope(ByteAt(d, 0));
    Telescope(ByteAt(d, 1));
  }

  lemma FirstBits2(d: seq<byte>)
    ensures SixBits(d, 12) == ByteAt(d, 1) % 16 * 4 + ByteAt(d, 2) / 64
  {
    hide Bit, ByteAt;
    BitsOf(d, 1);
    BitsOf(d, 2);
    Telescope(ByteAt(d, 1));
    Telescope(ByteAt(d, 2));
  }

  lemma FirstBits3(d: seq<byte>)
    ensures SixBits(d, 18) == ByteAt(d, 2) % 64
  {
    hide Bit, ByteAt;
    BitsOf(d, 2);
    Telescope(ByteAt(d, 2));
  }

  lemma Telescope(x: byte)
    ensures x % 4 == x - 4 * (x / 4) && x % 16 == x - 16 * (x / 16) && x % 64 == x - 64 * (x / 64)
  {
  }

  /** Byte `i` taken apart into its bits, as telescoping quotients. */
  lemma BitsOf(d: seq<byte>, i: nat)
    ensures var x := ByteAt(d, i); var n := 8 * i;
            && Bit(d, n) == x / 128
            && Bit(d, n + 1) == x / 64 - 2 * (x / 128)
            && Bit(d, n + 2) == x / 32 - 2 * (x / 64)
            && Bit(d, n + 3) == x / 16 - 2 * (x / 32)
            && Bit(d, n + 4) == x / 8 - 2 * (x / 16)
            && Bit(d, n + 5) == x / 4 - 2 * (x / 8)
            && Bit(d, n + 6) == x / 2 - 2 * (x / 4)
            && Bit(d, n + 7) == x - 2 * (x / 2)
  {
    hide Bit;
    BitOf(d, i, 0);
    BitOf(d, i, 1);
    BitOf(d, i, 2);
    BitOf(d, i, 3);
    BitOf(d, i, 4);
    BitOf(d, i, 5);
    BitOf(d, i, 6);
    BitOf(d, i, 7);
    var x: byte := if i < |d| then d[i] else 0;
    Halves(x);
  }

  lemma BitOf(d: seq<byte>, i: nat, k: nat)
    requires k < 8
    ensures Bit(d, 8 * i + k) == (if i < |d| then d[i] else 0) / Weight(k) % 2
  {
    hide Weight;
    assert (8 * i + k) / 8 == i && (8 * i + k) % 8 == k;
    if i >= |d| { assert 0 / Weight(k) == 0; }
  }

  lemma Halves(x: byte)
    ensures x / 128 % 2 == x / 128
    ensures x / 64 % 2 == x / 64 - 2 * (x / 128)
    ensures x / 32 % 2 == x / 32 - 2 * (x / 64)
    ensures x / 16 % 2 == x / 16 - 2 * (x / 32)
    ensures x / 8 % 2 == x / 8 - 2 * (x / 16)
    ensures x / 4 % 2 == x / 4 - 2 * (x / 8)
    ensures x / 2 % 2 == x / 2 - 2 * (x / 4)
    ensures x / 1 % 2 == x - 2 * (x / 2)
  {
  }

  // ----- decoding

  /** The bytes written, whose number is what the caller is told, and the verdict. */
  datatype Decoded = Decoded(data: seq<byte>, ok: bool)

  predicate FullGroup(s: string) { |s| > 4 && IsB64(s[0]) && IsB64(s[1]) && IsB64(s[2]) && IsB64(s[3]) }

  function Decode(s: string): (r: Decoded) {
    if FullGroup(s) then
      var r := Decode(s[4..]);
      Decoded(Unpack(Rev(s[0]), Rev(s[1]), Rev(s[2]), Rev(s[3])) + r.data, r.ok)
    else DecodeTail(s)
  }

  /** The last group: missing symbols read as '='. More than four symbols left over mean the
      loop stopped early; then up to four of them are still decoded, and the verdict is no. */
  function DecodeTail(s: string): (r: Decoded)
    ensures |r.data| <= 3
  {
    if s == "" then Decoded([], true)
    else
      var t := LastFour(s);
      if !IsB64(t[0]) || !IsB64(t[1]) then Decoded([], false)
      else
        var a: sextet, b: sextet := Rev(t[0]), Rev(t[1]);
        if IsB64(t[2]) && IsB64(t[3]) then Decoded(Unpack(a, b, Rev(t[2]), Rev(t[3])), |s| <= 4)
        else if IsB64(t[2]) then Decoded(Unpack(a, b, Rev(t[2]), 0)[..2], |s| <= 4)
        else if !IsB64(t[3]) then Decoded(Unpack(a, b, 0, 0)[..1], |s| <= 4)
        else Decoded([], false)
  }

  function Miss(n: nat): nat { (4 - n % 4) % 4 }

  function LastFour(s: string): (t: string)
    requires s != ""
    ensures |t| == 4
  {
    s[..4 - Miss(|s|)] + "===="[..Miss(|s|)]
  }

  /** The '=' at the end of an encoding of `n` bytes. */
  function Padding(n: nat): nat { if n % 3 == 0 then 0 else 3 - n % 3 }

  /** Decoding undoes encoding, whatever part of the padding was dropped. */
  lemma {:induction false} DecodeEncoded(d: seq<byte>, dropped: nat)
    requires dropped <= Padding(|d|)
    ensures dropped <= |Encode(d)|
    ensures Decode(Encode(d)[..|Encode(d)| - dropped]) == Decoded(d, true)
  {
    hide Encode, Decode;
    if |d| > 3 {
      assert Padding(|d| - 3) == Padding(|d|);
      DecodeEncoded(d[3..], dropped);
      DecodeGroup(d, dropped);
      assert d[..3] + d[3..] == d;
    } else if |d| == 3 {
      DecodeThree(d);
    } else if d != [] {
      DecodeFew(d, dropped);
    } else {
      DecodeNone();
    }
  }

  lemma DecodeNone()
    ensures Encode([]) == "" && Encode([])[..0] == "" && Decode("") == Decoded([], true)
  {
  }

  lemma DecodeGroup(d: seq<byte>, dropped: nat)
    requires |d| > 3 && dropped <= Padding(|d|)
    ensures dropped <= |Encode(d[3..])| <= |Encode(d)|
    ensures var r := Decode(Encode(d[3..])[..|Encode(d[3..])| - dropped]);
            Decode(Encode(d)[..|Encode(d)| - dropped]) == Decoded(d[..3] + r.data, r.ok)
  {
    hide Encode, Rev, Symbol, Pack, Unpack, DecodeTail, IsB64;
    var rest := Encode(d[3..]);
    EncodeHasLength(d[3..]);
    EncodeGroup(d);
    var g := Pack(d[0], d[1], d[2]);
    var s := Encode(d)[..|Encode(d)| - dropped];
    assert s == g + rest[..|rest| - dropped];
    assert s[4..] == rest[..|rest| - dropped];
    assert s[0] == g[0] && s[1] == g[1] && s[2] == g[2] && s[3] == g[3];
    UnpackPacked(d[0], d[1], d[2]);
    assert [d[0], d[1], d[2]] == d[..3];
  }

  lemma EncodeGroup(d: seq<byte>)
    requires |d| >= 3
    ensures Encode(d) == Pack(d[0], d[1], d[2]) + Encode(d[3..])
  {
  }

  lemma DecodeThree(d: seq<byte>)
    requires |d| == 3
    ensures Decode(Encode(d)[..|Encode(d)|]) == Decoded(d, true)
  {
    hide Rev, Symbol, Pack, Unpack;
    EncodeGroup(d);
    assert d[3..] == [] && Encode(d[3..]) == "";
    var s := Encode(d)[..|Encode(d)|];
    assert s == Pack(d[0], d[1], d[2]) && LastFour(s) == s;
    UnpackPacked(d[0], d[1], d[2]);
    assert d == [d[0], d[1], d[2]];
  }

  lemma DecodeFew(d: seq<byte>, dropped: nat)
    requires 1 <= |d| <= 2 && dropped <= Padding(|d|)
    ensures |Encode(d)| == 4 && Decode(Encode(d)[..4 - dropped]) == Decoded(d, true)
  {
    hide Decode, Rev, Symbol, Pack, Unpack, IsB64, DecodeTail;
    var y: byte := if |d| == 2 then d[1] else 0;
    var g := Pack(d[0], y, 0);
    var e := Encode(d);
    assert |e| == 4 && e[0] == g[0] && e[1] == g[1] && e[3] == '=' && e[2] == if |d| == 2 then g[2] else '=';
    var s := e[..4 - dropped];
    PaddedAgain(e, dropped);
    UnpackPacked(d[0], y, 0);
    EqualsIsStray();
    DecodeStep(s);
    TailOfFour(s, e);
    UnpackFew(Rev(g[0]), Rev(g[1]), Rev(g[2]), Rev(g[3]));
    FewOf(d, y);
  }

  lemma FewOf(d: seq<byte>, y: byte)
    requires 1 <= |d| <= 2 && (|d| == 2 ==> y == d[1])
    ensures [d[0], y, 0][..|d|] == d && [d[0], y, 0][..2][..|d|] == d
  {
  }

  lemma PaddedAgain(e: string, dropped: nat)
    requires |e| == 4 && dropped <= 2 && forall i :: 4 - dropped <= i < 4 ==> e[i] == '='
    ensures LastFour(e[..4 - dropped]) == e
  {
    LastFourAt(e[..4 - dropped]);
  }

  lemma TailOfFour(s: string, t: string)
    requires 1 <= |s| <= 4 && t == LastFour(s) && |t| == 4 && IsB64(t[0]) && IsB64(t[1]) && !IsB64(t[3])
    ensures DecodeTail(s) == if IsB64(t[2]) then Decoded(Unpack(Rev(t[0]), Rev(t[1]), Rev(t[2]), 0)[..2], true)
                             else Decoded(Unpack(Rev(t[0]), Rev(t[1]), 0, 0)[..1], true)
  {
    hide Rev, Unpack, IsB64, LastFour;
  }

  /** The first bytes of a group do not depend on its last symbols. */
  lemma UnpackFew(a: sextet, b: sextet, c: sextet, d: sextet)
    ensures Unpack(a, b, c, 0)[..2] == Unpack(a, b, c, d)[..2]
    ensures Unpack(a, b, c, d)[1] == 0 ==> Unpack(a, b, 0, 0)[..1] == Unpack(a, b, c, d)[..1]
  {
  }

  // ----- how much room decoding needs

  function DecodeLength(s: string): nat {
    if |s| <= 3 then 0
    else Max0(LengthByEnd(|s|, IsB64(s[|s| - 2]), IsB64(s[|s| - 1])))
  }

  function Max0(x: int): nat { if x < 0 then 0 else x }

  function LengthByEnd(n: nat, y: bool, z: bool): int {
    var full := (n + 3) / 4 * 3;
    var miss := Miss(n);
    if y && z && miss <= 2 then full - miss
    else if y && !z then full - (miss + 1)
    else if !y && !z && miss == 0 then full - 2
    else full
  }

  /** One symbol outside the alphabet ends whole groups of symbols. */
  predicate StrayEnd(s: string) {
    |s| > 4 && |s| % 4 == 1 && !IsB64(s[|s| - 1]) && forall i :: 0 <= i < |s| - 1 ==> IsB64(s[i])
  }

  lemma {:induction false} RoomByEnd(s: string)
    requires |s| >= 2
    ensures var n := LengthByEnd(|s|, IsB64(s[|s| - 2]), IsB64(s[|s| - 1]));
            && (|Decode(s).data| <= Max0(n) <==> !StrayEnd(s))
            && (Decode(s).ok ==> |Decode(s).data| == n)
  {
    hide IsB64, Decode, StrayEnd;
    if FullGroup(s) {
      var r := s[4..];
      DecodeFullGroup(s);
      LengthPerGroup(|r|, IsB64(s[|s| - 2]), IsB64(s[|s| - 1]));
      if |r| >= 2 {
        assert r[|r| - 2] == s[|s| - 2] && r[|r| - 1] == s[|s| - 1];
        RoomByEnd(r);
        StrayEndBehind(s);
        LengthPositive(|r|, IsB64(r[|r| - 2]), IsB64(r[|r| - 1]));
      } else {
        DecodeOne(r);
        StrayFifth(s);
      }
    } else {
      RoomAtTail(s);
    }
  }

  lemma DecodeFullGroup(s: string)
    requires FullGroup(s)
    ensures |Decode(s).data| == 3 + |Decode(s[4..]).data| && Decode(s).ok == Decode(s[4..]).ok
  {
    hide IsB64, Rev, Unpack;
  }

  lemma LengthPerGroup(n: nat, y: bool, z: bool)
    ensures LengthByEnd(n + 4, y, z) == 3 + LengthByEnd(n, y, z)
  {
    assert (n + 4) % 4 == n % 4;
    assert (n + 4 + 3) / 4 == (n + 3) / 4 + 1;
  }

  lemma LengthPositive(n: nat, y: bool, z: bool)
    requires n >= 2
    ensures LengthByEnd(n, y, z) >= 0
  {
  }

  lemma DecodeOne(r: string)
    requires |r| == 1
    ensures Decode(r) == Decoded([], false)
  {
    EqualsIsStray();
  }

  lemma StrayFifth(s: string)
    requires FullGroup(s) && |s| == 5
    ensures StrayEnd(s) <==> !IsB64(s[4])
  {
    hide IsB64;
  }

  lemma RoomAtTail(s: string)
    requires |s| >= 2 && !FullGroup(s)
    ensures var n := LengthByEnd(|s|, IsB64(s[|s| - 2]), IsB64(s[|s| - 1]));
            |Decode(s).data| <= Max0(n) && !StrayEnd(s) && (Decode(s).ok ==> |Decode(s).data| == n)
  {
    hide IsB64, Rev, Unpack, LastFour;
    EqualsIsStray();
    var t := LastFour(s);
    LastFourAt(s);
    if |s| <= 4 {
      TailLength(s, t);
    } else {
      assert !StrayEnd(s);
      assert !Decode(s).ok;
      TailBound(s, t);
      LengthBound(|s|, IsB64(s[|s| - 2]), IsB64(s[|s| - 1]));
    }
  }

  lemma LastFourAt(s: string)
    requires s != ""
    ensures forall i :: 0 <= i < 4 ==> LastFour(s)[i] == if i < 4 - Miss(|s|) then s[i] else '='
  {
  }

  lemma TailLength(s: string, t: string)
    requires 2 <= |s| <= 4 && |t| == 4 && t == LastFour(s) && !IsB64('=')
    requires forall i :: 0 <= i < 4 ==> t[i] == if i < 4 - Miss(|s|) then s[i] else '='
    ensures var n := LengthByEnd(|s|, IsB64(s[|s| - 2]), IsB64(s[|s| - 1]));
            |Decode(s).data| <= Max0(n) && (Decode(s).ok ==> |Decode(s).data| == n)
  {
    hide IsB64, Rev, Unpack, LastFour, DecodeTail, Decode, LengthByEnd;
    DecodeStep(s);
    TailSize(s, t);
    ShortLengths(IsB64(s[|s| - 2]), IsB64(s[|s| - 1]));
    if |s| == 2 {
      assert t[0] == s[0] && t[1] == s[1] && t[2] == '=' && t[3] == '=';
    } else if |s| == 3 {
      assert t[0] == s[0] && t[1] == s[1] && t[2] == s[2] && t[3] == '=';
    } else {
      assert t[0] == s[0] && t[1] == s[1] && t[2] == s[2] && t[3] == s[3];
    }
  }

  lemma ShortLengths(y: bool, z: bool)
    ensures LengthByEnd(2, y, z) == if y && z then 1 else if y then 0 else 3
    ensures LengthByEnd(3, y, z) == if y && z then 2 else if y then 1 else 3
    ensures LengthByEnd(4, y, z) == if y && !z then 2 else if !y && !z then 1 else 3
  {
  }

  lemma TailSize(s: string, t: string)
    requires s != "" && t == LastFour(s)
    ensures |DecodeTail(s).data| == if !IsB64(t[0]) || !IsB64(t[1]) then 0
                                    else if IsB64(t[2]) then (if IsB64(t[3]) then 3 else 2)
                                    else if !IsB64(t[3]) then 1 else 0
    ensures DecodeTail(s).ok <==> |s| <= 4 && IsB64(t[0]) && IsB64(t[1]) && (IsB64(t[2]) || !IsB64(t[3]))
  {
    hide IsB64, Rev, Unpack, LastFour;
  }

  /** What is still decoded after the loop stopped early. */
  lemma TailBound(s: string, t: string)
    requires |s| > 4 && !FullGroup(s) && |t| == 4 && t == LastFour(s) && !IsB64('=')
    requires forall i :: 0 <= i < 4 ==> t[i] == if i < 4 - Miss(|s|) then s[i] else '='
    ensures |Decode(s).data| <= 2 && (|s| == 5 ==> |Decode(s).data| == 0)
  {
    hide IsB64, Rev, Unpack, LastFour;
  }

  lemma LengthBound(n: nat, y: bool, z: bool)
    requires n > 4
    ensures LengthByEnd(n, y, z) >= 2
  {
  }

  lemma EqualsIsStray()
    ensures !IsB64('=')
  {
  }

  lemma StrayEndBehind(s: string)
    requires FullGroup(s) && |s| >= 6
    ensures StrayEnd(s[4..]) <==> StrayEnd(s)
  {
    hide IsB64;
    var r := s[4..];
    assert forall i :: 0 <= i < |r| ==> r[i] == s[i + 4];
    if StrayEnd(r) {
      forall i | 0 <= i < |s| - 1 ensures IsB64(s[i]) { if i >= 4 { assert s[i] == r[i - 4]; } }
      assert StrayEnd(s);
    }
  }

  /** Base64DecodeLength is the exact size for every accepted text of more than three
      symbols, and covers what gets decoded from every text but two families. */
  lemma DecodeLengthExact(s: string)
    ensures Decode(s).ok && |s| > 3 ==> |Decode(s).data| == DecodeLength(s)
    ensures |Decode(s).data| <= DecodeLength(s) <==>
            !(StrayEnd(s) || (2 <= |s| <= 3 && IsB64(s[0]) && IsB64(s[1])))
  {
    hide IsB64, Rev, Unpack, Decode, DecodeTail, LengthByEnd;
    if |s| > 3 {
      RoomByEnd(s);
    } else {
      DecodeStep(s);
      if s != "" {
        EqualsIsStray();
        TailSize(s, LastFour(s));
        LastFourAt(s);
      } else {
        DecodeNone();
      }
    }
  }

  /** Both families are there: two symbols, and a whole group with one '=' behind it. */
  lemma LengthFallsShort()
    ensures |Decode("AA").data| == 1 && DecodeLength("AA") == 0
    ensures |Decode("AAAA=").data| == 3 && DecodeLength("AAAA=") == 2
  {
    var s, r := "AAAA=", "AAAA="[4..];
    DecodeFullGroup(s);
    DecodeOne(r);
    EqualsIsStray();
    TailSize("AA", LastFour("AA"));
    LastFourAt("AA");
    DecodeStep("AA");
  }

  /** On an encoding with any part of its padding dropped, the length function gives the
      length of the data, except for one or two bytes without all their padding. */
  lemma EncodedLengthExact(d: seq<byte>, dropped: nat)
    requires dropped <= Padding(|d|)
    ensures dropped <= |Encode(d)|
    ensures DecodeLength(Encode(d)[..|Encode(d)| - dropped]) == |d| <==> !(|d| in {1, 2} && dropped > 0)
  {
    hide Decode, Encode;
    EncodeHasLength(d);
    DecodeEncoded(d, dropped);
    DecodeLengthExact(Encode(d)[..|Encode(d)| - dropped]);
  }

  /** Different data have different texts. */
  lemma EncodeInjective(d: seq<byte>, e: seq<byte>)
    requires Encode(d) == Encode(e)
    ensures d == e
  {
    hide Decode, Encode;
    DecodeEncoded(d, 0);
    DecodeEncoded(e, 0);
    assert Encode(d)[..|Encode(d)|] == Encode(d);
  }

  // ----- the loops

  /** One round of the encoding loop. */
  method PutGroup(dst: array<char>, o: nat, x: byte, y: byte, z: byte)
    requires o + 4 <= dst.Length
    modifies dst
    ensures dst[..] == old(dst[..o]) + Pack(x, y, z) + old(dst[o + 4..])
  {
    dst[o], dst[o + 1] := Symbol(x / 4), Symbol(x % 4 * 16 + y / 16);
    dst[o + 2], dst[o + 3] := Symbol(y % 16 * 4 + z / 64), Symbol(z % 64);
  }

  /** The last one or two bytes. */
  method PutLast(dst: array<char>, o: nat, d: seq<byte>)
    requires o + 4 <= dst.Length && 1 <= |d| <= 2
    modifies dst
    ensures |Encode(d)| == 4 && dst[..] == old(dst[..o]) + Encode(d) + old(dst[o + 4..])
  {
    hide Symbol;
    var x := d[0];
    dst[o] := Symbol(x / 4);
    if |d| == 1 {
      dst[o + 1], dst[o + 2], dst[o + 3] := Symbol(x % 4 * 16), '=', '=';
    } else {
      var y := d[1];
      dst[o + 1], dst[o + 2], dst[o + 3] := Symbol(x % 4 * 16 + y / 16), Symbol(y % 16 * 4), '=';
    }
  }

  method Base64Encode(dst: array<char>, d: seq<byte>)
    requires dst.Length >= EncodeLength(|d|)
    modifies dst
    ensures |Encode(d)| == EncodeLength(|d|) && dst[..] == Encode(d) + old(dst[EncodeLength(|d|)..])
  {
    hide Symbol, Sextets, Encode, Pack;
    EncodeHasLength(d);
    ghost var was := dst[..];
    var i, o := 0, 0;
    assert d[0..] == d;
    while |d| - i >= 3
      invariant 0 <= i <= |d| && o + EncodeLength(|d| - i) == EncodeLength(|d|) <= |was| == dst.Length
      invariant Encode(d) == dst[..o] + Encode(d[i..])
      invariant dst[o..] == was[o..]
      decreases |d| - i
    {
      ghost var before := dst[..o];
      PutGroup(dst, o, d[i], d[i + 1], d[i + 2]);
      EncodeGroup(d[i..]);
      assert dst[..o + 4] == before + Pack(d[i], d[i + 1], d[i + 2]);
      assert d[i..][3..] == d[i + 3..];
      LengthOfGroup(|d| - i);
      i, o := i + 3, o + 4;
    }
    if i < |d| {
      ghost var before := dst[..o];
      PutLast(dst, o, d[i..]);
      assert dst[..o + 4] == before + Encode(d[i..]);
    } else {
      EncodeNone(d[i..]);
    }
    assert dst[..] == Encode(d) + was[EncodeLength(|d|)..];
  }

  lemma EncodeNone(d: seq<byte>)
    requires d == []
    ensures Encode(d) == ""
  {
  }

  lemma LengthOfGroup(n: nat)
    requires n >= 3
    ensures EncodeLength(n) == 4 + EncodeLength(n - 3)
  {
    assert (n + 2) / 3 == (n - 3 + 2) / 3 + 1;
  }

  /** `n` is what the caller reads from *pDataOutLen. */
  method Base64Decode(dst: array<byte>, s: string) returns (ok: bool, n: nat)
    requires dst.Length >= |Decode(s).data|
    modifies dst
    ensures n == |Decode(s).data| && ok == Decode(s).ok
    ensures dst[..] == Decode(s).data + old(dst[n..])
  {
    hide Symbol, Rev, Unpack, Decode, IsB64;
    ghost var was := dst[..];
    var i, o := 0, 0;
    assert s[0..] == s;
    while FullGroup(s[i..])
      invariant 0 <= i <= |s| && o <= |was| == dst.Length
      invariant Decode(s) == Decoded(dst[..o] + Decode(s[i..]).data, Decode(s[i..]).ok)
      invariant dst[o..] == was[o..]
      decreases |s| - i
    {
      ghost var before := dst[..o];
      DecodeStep(s[i..]);
      var g := Unpack(Rev(s[i]), Rev(s[i + 1]), Rev(s[i + 2]), Rev(s[i + 3]));
      PutTail(dst, o, g);
      assert dst[..o + 3] == before + g;
      assert s[i..][4..] == s[i + 4..];
      ghost var rest := Decode(s[i + 4..]);
      assert Decode(s[i..]) == Decoded(g + rest.data, rest.ok);
      assert before + (g + rest.data) == dst[..o + 3] + rest.data;
      i, o := i + 4, o + 3;
    }
    var r := DecodeTail(s[i..]);
    DecodeStep(s[i..]);
    n := o + |r.data|;
    ghost var before := dst[..o];
    assert dst[o + |r.data|..] == was[n..];
    PutTail(dst, o, r.data);
    assert Decode(s).data == before + r.data;
    ok := r.ok;
  }

  method PutTail(dst: array<byte>, o: nat, r: seq<byte>)
    requires |r| <= 3 && o + |r| <= dst.Length
    modifies dst
    ensures dst[..] == old(dst[..o]) + r + old(dst[o + |r|..])
  {
    if |r| > 0 { dst[o] := r[0]; }
    if |r| > 1 { dst[o + 1] := r[1]; }
    if |r| > 2 { dst[o + 2] := r[2]; }
  }

  lemma DecodeStep(s: string)
    ensures !FullGroup(s) ==> Decode(s) == DecodeTail(s)
    ensures FullGroup(s) ==>
              var r := Decode(s[4..]);
              Decode(s) == Decoded(Unpack(Rev(s[0]), Rev(s[1]), Rev(s[2]), Rev(s[3])) + r.data, r.ok)
  {
    hide Rev, Unpack, DecodeTail, IsB64;
  }
}
