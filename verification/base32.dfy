/** Base32 of core/os/kernal_encode.cpp: two code tables in six spellings, groups of five
    bytes as eight symbols, and a shorter last group that keeps its leftover bits unshifted. */
module Base32 {
  import opened Bytes
  import Arith

  type quintet = x: int | 0 <= x < 32

  // ----- alphabets

  datatype Alphabet = ExtendHex(upper: bool) | Crockford(upper: bool, favourite: bool)

  function Letter(upper: bool, i: nat): char
    requires i < 26
  {
    ((if upper then 'A' else 'a') as int + i) as char
  }

  function Symbol(a: Alphabet, x: quintet): (c: char) {
    if a.Crockford? && a.favourite && x < 3 then Letter(a.upper, if x == 0 then 14 else if x == 1 then 8 else 25)
    else if x < 10 then ('0' as int + x) as char
    else if a.ExtendHex? then Letter(a.upper, x - 10)
    // A-H J K M N P-T V-Y @
    else if x < 18 then Letter(a.upper, x - 10)
    else if x < 20 then Letter(a.upper, x - 9)
    else if x < 22 then Letter(a.upper, x - 8)
    else if x < 27 then Letter(a.upper, x - 7)
    else if x < 31 then Letter(a.upper, x - 6)
    else '@'
  }

  /** The place of a letter, whatever its case. */
  function Place(c: char): (i: Option<nat>)
    ensures i.Some? ==> i.value < 26
  {
    if 'A' <= c <= 'Z' then Some(c as int - 'A' as int)
    else if 'a' <= c <= 'z' then Some(c as int - 'a' as int) else None
  }

  /** The code of a symbol; None is an error. The Crockford table gives -1 to the characters
      between '0' and 'z' that it does not know, and that is not an error to its caller. */
  function Code(crockford: bool, c: char): (x: Option<int>)
    ensures x.Some? ==> -1 <= x.value < 32
    ensures x.Some? && !crockford ==> x.value >= 0
  {
    if '0' <= c <= '9' then Some(c as int - '0' as int)
    else if !crockford then
      (if Place(c).Some? && Place(c).value < 22 then Some(Place(c).value + 10) else None)
    else if c == '@' then Some(31)
    else if Place(c).Some? then Some(CrockfordCode(Place(c).value))
    else if '0' <= c <= 'z' then Some(-1) else None
  }

  function CrockfordCode(i: nat): (x: int)
    requires i < 26
    ensures 0 <= x < 32
  {
    if i < 8 then i + 10            // A-H
    else if i == 8 || i == 11 then 1 // I L
    else if i < 11 then i + 9       // J K
    else if i < 14 then i + 8       // M N
    else if i == 14 then 0          // O
    else if i < 20 then i + 7       // P-T
    else if i == 20 then 27         // U
    else if i < 25 then i + 6       // V-Y
    else 2                          // Z
  }

  /** The six encoding tables. */
  lemma SymbolTables(x: quintet)
    ensures Symbol(ExtendHex(true), x) == "0123456789ABCDEFGHIJKLMNOPQRSTUV"[x]
    ensures Symbol(ExtendHex(false), x) == "0123456789abcdefghijklmnopqrstuv"[x]
    ensures Symbol(Crockford(true, false), x) == "0123456789ABCDEFGHJKMNPQRSTVWXY@"[x]
    ensures Symbol(Crockford(false, false), x) == "0123456789abcdefghjkmnpqrstvwxy@"[x]
    ensures Symbol(Crockford(true, true), x) == "OIZ3456789ABCDEFGHJKMNPQRSTVWXY@"[x]
    ensures Symbol(Crockford(false, true), x) == "oiz3456789abcdefghjkmnpqrstvwxy@"[x]
  {
    SymbolTable0(x);
    SymbolTable1(x);
    SymbolTable2(x);
    SymbolTable3(x);
    SymbolTable4(x);
    SymbolTable5(x);
  }

  lemma SymbolTable0(x: quintet)
    ensures Symbol(ExtendHex(true), x) == "0123456789ABCDEFGHIJKLMNOPQRSTUV"[x]
  {
  }

  lemma SymbolTable1(x: quintet)
    ensures Symbol(ExtendHex(false), x) == "0123456789abcdefghijklmnopqrstuv"[x]
  {
  }

  lemma SymbolTable2(x: quintet)
    ensures Symbol(Crockford(true, false), x) == "0123456789ABCDEFGHJKMNPQRSTVWXY@"[x]
  {
  }

  lemma SymbolTable3(x: quintet)
    ensures Symbol(Crockford(false, false), x) == "0123456789abcdefghjkmnpqrstvwxy@"[x]
  {
  }

  lemma SymbolTable4(x: quintet)
    ensures Symbol(Crockford(true, true), x) == "OIZ3456789ABCDEFGHJKMNPQRSTVWXY@"[x]
  {
  }

  lemma SymbolTable5(x: quintet)
    ensures Symbol(Crockford(false, true), x) == "oiz3456789abcdefghjkmnpqrstvwxy@"[x]
  {
  }

  const DIGITS: seq<int> := [0, 1, 2, 3, 4, 5, 6, 7, 8, 9]
  const LETTERS: seq<int> := [
    10, 11, 12, 13, 14, 15, 16, 17, 1, 18, 19, 1, 20, 21, 0, 22, 23, 24, 25, 26, 27, 27, 28, 29, 30, 2]

  /** The decoding table of the Crockford alphabet, for '0' to 'z'. */
  const DECODING: seq<int> := DIGITS + [-1, -1, -1, -1, -1, -1, 31] + LETTERS + [-1, -1, -1, -1, -1, -1] + LETTERS

  /** Both decoders, character by character. */
  lemma CodeTables(c: char)
    ensures |DECODING| == 75
    ensures Code(true, c) == if '0' <= c <= 'z' then Some(DECODING[c as int - 48]) else None
    ensures Code(false, c) ==
            if '0' <= c <= '9' then Some(c as int - 48)
            else if 'a' <= c <= 'v' then Some(c as int - 87)
            else if 'A' <= c <= 'V' then Some(c as int - 55) else None
  {
    hide CrockfordCode, DECODING, LETTERS;
    DecodingLength();
    var i := c as int - 48;
    if 0 <= i < 75 {
      DecodingAt(i);
      if 17 <= i < 43 { LetterCode(i - 17); }
      if 49 <= i { LetterCode(i - 49); }
    }
  }

  lemma DecodingLength()
    ensures |DECODING| == 75 && |LETTERS| == 26
  {
  }

  lemma DecodingAt(i: nat)
    requires i < 75
    ensures |DECODING| == 75 && |LETTERS| == 26
    ensures DECODING[i] ==
            if i < 10 then i else if i < 16 then -1 else if i == 16 then 31
            else if i < 43 then LETTERS[i - 17] else if i < 49 then -1 else LETTERS[i - 49]
  {
    hide LETTERS;
    DecodingLength();
    if i < 10 {
      assert DECODING[i] == DIGITS[i] == i;
    } else if i < 17 {
      assert DECODING[i] == [-1, -1, -1, -1, -1, -1, 31][i - 10];
    } else if i < 43 {
      assert DECODING[i] == LETTERS[i - 17];
    } else if i < 49 {
      assert DECODING[i] == [-1, -1, -1, -1, -1, -1][i - 43];
    } else {
      assert DECODING[i] == LETTERS[i - 49];
    }
  }

  lemma LetterCode(i: nat)
    requires i < 26
    ensures |LETTERS| == 26 && CrockfordCode(i) == LETTERS[i]
  {
  }

  lemma CodeOfSymbol(a: Alphabet, x: quintet)
    ensures Code(a.Crockford?, Symbol(a, x)) == Some(x)
  {
  }

  function UpperCase(c: char): char { if 'a' <= c <= 'z' then (c as int - 32) as char else c }

  lemma SymbolOfCode(c: char)
    requires Code(false, c).Some?
    ensures Symbol(ExtendHex(true), Code(false, c).value) == UpperCase(c)
  {
  }

  // ----- packing

  function EncodeLength(n: nat): nat { (n * 8 + 4) / 5 }

  /** -1 marks the lengths that no encoding has. */
  function TailLength(r: nat): int
    requires r < 8
  {
    [0, -1, 1, -1, 2, 3, -1, 4][r]
  }

  function DecodeLength(n: nat): nat {
    if TailLength(n % 8) >= 0 then n / 8 * 5 + TailLength(n % 8) else 0
  }

  // The fields of the five bytes of a group: 5+3, 2+5+1, 4+4, 1+5+2 and 3+5 bits.
  function Q0(a: byte): (x: quintet) { a / 8 }
  function T0(a: byte): (x: int) ensures 0 <= x < 8 { a % 8 }
  function H1(b: byte): (x: int) ensures 0 <= x < 4 { b / 64 }
  function Q2(b: byte): (x: quintet) { b / 2 % 32 }
  function T1(b: byte): (x: int) ensures 0 <= x < 2 { b % 2 }
  function H2(c: byte): (x: int) ensures 0 <= x < 16 { c / 16 }
  function T2(c: byte): (x: int) ensures 0 <= x < 16 { c % 16 }
  function H3(d: byte): (x: int) ensures 0 <= x < 2 { d / 128 }
  function Q5(d: byte): (x: quintet) { d / 4 % 32 }
  function T3(d: byte): (x: int) ensures 0 <= x < 4 { d % 4 }
  function H4(e: byte): (x: int) ensures 0 <= x < 8 { e / 32 }
  function Q7(e: byte): (x: quintet) { e % 32 }

  function Quintets(a: byte, b: byte, c: byte, d: byte, e: byte): (q: seq<quintet>)
    ensures |q| == 8
  {
    [Q0(a), T0(a) * 4 + H1(b), Q2(b), T1(b) * 16 + H2(c), T2(c) * 2 + H3(d), Q5(d), T3(d) * 8 + H4(e), Q7(e)]
  }

  /** The codes of the data; the last symbol of a short group holds the bits left over. */
  function Pack(d: seq<byte>): (q: seq<quintet>) {
    if |d| >= 5 then Quintets(d[0], d[1], d[2], d[3], d[4]) + Pack(d[5..])
    else PackTail(d)
  }

  function PackTail(d: seq<byte>): (q: seq<quintet>)
    requires |d| < 5
  {
    if |d| == 0 then []
    else if |d| == 1 then [Q0(d[0]), T0(d[0])]
    else if |d| == 2 then Quintets(d[0], d[1], 0, 0, 0)[..3] + [T1(d[1])]
    else if |d| == 3 then Quintets(d[0], d[1], d[2], 0, 0)[..4] + [T2(d[2])]
    else Quintets(d[0], d[1], d[2], d[3], 0)[..6] + [T3(d[3])]
  }

  lemma {:induction false} PackHasLength(d: seq<byte>)
    ensures |Pack(d)| == EncodeLength(|d|) && DecodeLength(|Pack(d)|) == |d| && TailLength(|Pack(d)| % 8) >= 0
  {
    hide EncodeLength, DecodeLength, Quintets, PackTail;
    if |d| >= 5 {
      PackHasLength(d[5..]);
      LengthsOfGroup(|d| - 5, |Pack(d[5..])|);
    } else {
      TailHasLength(d);
    }
  }

  lemma LengthsOfGroup(n: nat, m: nat)
    ensures EncodeLength(n + 5) == EncodeLength(n) + 8 && TailLength((m + 8) % 8) == TailLength(m % 8)
    ensures TailLength(m % 8) >= 0 ==> DecodeLength(m + 8) == DecodeLength(m) + 5
  {
    assert (m + 8) % 8 == m % 8 && (m + 8) / 8 == m / 8 + 1;
  }

  lemma TailHasLength(d: seq<byte>)
    requires |d| < 5
    ensures |PackTail(d)| == EncodeLength(|d|) && DecodeLength(|PackTail(d)|) == |d|
    ensures TailLength(|PackTail(d)| % 8) >= 0
  {
    hide Quintets, Q0, T0, T1, T2, T3;
    assert |PackTail(d)| == [0, 2, 4, 5, 7][|d|];
  }

  // ----- unpacking

  type code = x: int | -1 <= x < 32

  // The low eight bits of the shifts and ors on codes. A negative code is a word of ones,
  // and shifting it right leaves it so, as division rounding down does.
  function Byte0(v0: code, v1: code): byte { Left0(v0, v1 / 4) }
  function Byte1(v1: code, v2: code, v3: code): byte { Left1(v1, v2, v3 / 16) }
  function Byte2(v3: code, v4: code): byte { Left2(v3, v4 / 2) }
  function Byte3(v4: code, v5: code, v6: code): byte { Left3(v4, v5, v6 / 8) }
  function Byte4(v6: code, v7: code): byte { if v7 < 0 then 255 else v6 % 8 * 32 + v7 }

  function Unpack8(v: seq<code>): (s: seq<byte>)
    requires |v| >= 8
    ensures |s| == 5
  {
    [Byte0(v[0], v[1]), Byte1(v[1], v[2], v[3]), Byte2(v[3], v[4]), Byte3(v[4], v[5], v[6]), Byte4(v[6], v[7])]
  }

  /** The largest leftover the decoder lets through. */
  function TailLimit(r: nat): int { if r == 2 then 7 else if r == 4 then 1 else if r == 5 then 16 else 4 }

  function Unpack(v: seq<code>): (r: Option<seq<byte>>) {
    if |v| >= 8 then
      (match Unpack(v[8..])
       case None => None
       case Some(s) => Some(Unpack8(v) + s))
    else UnpackTail(v)
  }

  function UnpackTail(v: seq<code>): (r: Option<seq<byte>>)
    requires |v| < 8
  {
    if |v| == 0 then Some([])
    else if TailLength(|v|) < 0 || v[|v| - 1] > TailLimit(|v|) then None
    else
      var t := v[|v| - 1];
      if |v| == 2 then Some([Left0(v[0], t)])
      else if |v| == 4 then Some([Byte0(v[0], v[1]), Left1(v[1], v[2], t)])
      else if |v| == 5 then Some([Byte0(v[0], v[1]), Byte1(v[1], v[2], v[3]), Left2(v[3], t)])
      else Some([Byte0(v[0], v[1]), Byte1(v[1], v[2], v[3]), Byte2(v[3], v[4]), Left3(v[4], v[5], t)])
  }

  /** The last byte of a short group, the leftover `t` or-ed in as it is. */
  function Left0(v0: code, t: code): byte
    requires t <= 7
  {
    if t < 0 then 255 else v0 % 32 * 8 + t
  }
  function Left1(v1: code, v2: code, t: code): byte
    requires t <= 1
  {
    if t < 0 then 255 else if v2 < 0 then 254 + t else v1 % 4 * 64 + v2 * 2 + t
  }
  function Left2(v3: code, t: code): byte
    requires t <= 16
  {
    if t < 0 then 255
    else if t == 16 then v3 % 16 * 16 + (if v3 % 2 == 0 then 16 else 0)
    else v3 % 16 * 16 + t
  }
  function Left3(v4: code, v5: code, t: code): byte
    requires t <= 4
  {
    if t < 0 then 255
    else if v5 < 0 then 252 + (if t == 4 then 0 else t)
    else v4 % 2 * 128 + (if t == 4 then (v5 * 4 + if v5 % 2 == 0 then 4 else 0) else v5 * 4 + t)
  }

  // ----- packing and unpacking

  /** A full group holds the same number in base 32 as its bytes do in base 256. */
  lemma GroupValue(a: byte, b: byte, c: byte, d: byte, e: byte)
    ensures var q := Quintets(a, b, c, d, e);
            0x1_0000_0000 * a as int + 0x100_0000 * b as int + 0x1_0000 * c as int + 256 * d as int + e as int ==
            0x8_0000_0000 * q[0] as int + 0x4000_0000 * q[1] as int + 0x200_0000 * q[2] as int + 0x10_0000 * q[3] as int
            + 0x8000 * q[4] as int + 1024 * q[5] as int + 32 * q[6] as int + q[7] as int
  {
    hide Q0, T0, H1, Q2, T1, H2, T2, H3, Q5, T3, H4, Q7;
    Fields(a, b, c, d, e);
  }

  lemma Fields(a: byte, b: byte, c: byte, d: byte, e: byte)
    ensures a as int == 8 * Q0(a) as int + T0(a)
    ensures b as int == 64 * H1(b) + 2 * Q2(b) as int + T1(b)
    ensures c as int == 16 * H2(c) + T2(c)
    ensures d as int == 128 * H3(d) + 4 * Q5(d) as int + T3(d)
    ensures e as int == 32 * H4(e) + Q7(e) as int
  {
    MiddleField(b, 2);
    MiddleField(d, 4);
  }

  lemma MiddleField(x: byte, k: int)
    requires k == 2 || k == 4
    ensures x as int == x / (32 * k) * (32 * k) + x / k % 32 * k + x % k
  {
    assert x / 2 / 32 == x / 64 && x / 4 / 32 == x / 128;
  }

  /** And so does a short one, its last symbol holding the 3, 1, 4 or 2 bits left over. */
  lemma TailValue(d: seq<byte>)
    requires 1 <= |d| <= 4
    ensures var q := PackTail(d);
            && (|d| == 1 ==> |q| == 2 && d[0] as int == 8 * q[0] as int + q[1])
            && (|d| == 2 ==>
                  |q| == 4 && 256 * d[0] as int + d[1] as int == 0x800 * q[0] + 0x40 * q[1] + 2 * q[2] as int + q[3])
            && (|d| == 3 ==>
                  && |q| == 5
                  && 0x1_0000 * d[0] as int + 256 * d[1] as int + d[2] as int ==
                     0x8_0000 * q[0] + 0x4000 * q[1] + 0x200 * q[2] + 0x10 * q[3] as int + q[4])
            && (|d| == 4 ==>
                  && |q| == 7
                  && 0x100_0000 * d[0] as int + 0x1_0000 * d[1] as int + 256 * d[2] as int + d[3] as int ==
                     0x800_0000 * q[0] + 0x40_0000 * q[1] + 0x2_0000 * q[2] + 0x1000 * q[3] + 0x80 * q[4]
                     + 4 * q[5] as int + q[6])
  {
    hide Q0, T0, H1, Q2, T1, H2, T2, H3, Q5, T3, H4, Q7;
    Fields(d[0], ByteAt(d, 1), ByteAt(d, 2), ByteAt(d, 3), 0);
  }

  function ByteAt(d: seq<byte>, i: nat): byte { if i < |d| then d[i] else 0 }

  lemma UnpackQuintets(a: byte, b: byte, c: byte, d: byte, e: byte)
    ensures Unpack8(Quintets(a, b, c, d, e)) == [a, b, c, d, e]
  {
    BackFrom(a, b, c, d, e);
  }

  lemma BackFrom(a: byte, b: byte, c: byte, d: byte, e: byte)
    ensures var q := Quintets(a, b, c, d, e);
            && Byte0(q[0], q[1]) == a && Byte1(q[1], q[2], q[3]) == b && Byte2(q[3], q[4]) == c
            && Byte3(q[4], q[5], q[6]) == d && Byte4(q[6], q[7]) == e
  {
    hide Q0, T0, H1, Q2, T1, H2, T2, H3, Q5, T3, H4, Q7, Left0, Left1, Left2, Left3;
    LeftBack(a, b, c, d, e);
    Arith.DivModUnique(T0(a) * 4 + H1(b), 4, T0(a), H1(b));
    Arith.DivModUnique(T1(b) * 16 + H2(c), 16, T1(b), H2(c));
    Arith.DivModUnique(T2(c) * 2 + H3(d), 2, T2(c), H3(d));
    Arith.DivModUnique(T3(d) * 8 + H4(e), 8, T3(d), H4(e));
  }

  /** The last byte of a short group, and the bytes of a full one, from their fields. */
  lemma LeftBack(a: byte, b: byte, c: byte, d: byte, e: byte)
    ensures var q := Quintets(a, b, c, d, e);
            && Left0(q[0], T0(a)) == a && Left1(q[1], q[2], T1(b)) == b && Left2(q[3], T2(c)) == c
            && Left3(q[4], q[5], T3(d)) == d && Byte4(q[6], q[7]) == e
  {
    hide Q0, T0, H1, Q2, T1, H2, T2, H3, Q5, T3, H4, Q7;
    Fields(a, b, c, d, e);
    Arith.DivModUnique(T0(a) * 4 + H1(b), 4, T0(a), H1(b));
    Arith.DivModUnique(T1(b) * 16 + H2(c), 16, T1(b), H2(c));
    Arith.DivModUnique(T2(c) * 2 + H3(d), 2, T2(c), H3(d));
    Arith.DivModUnique(T3(d) * 8 + H4(e), 8, T3(d), H4(e));
    assert Q0(a) % 32 == Q0(a);
  }

  lemma {:induction false} UnpackPacked(d: seq<byte>)
    ensures Unpack(Pack(d)) == Some(d)
  {
    hide Quintets, Unpack8, PackTail, UnpackTail;
    if |d| >= 5 {
      UnpackPacked(d[5..]);
      var g := Quintets(d[0], d[1], d[2], d[3], d[4]);
      UnpackQuintets(d[0], d[1], d[2], d[3], d[4]);
      assert Pack(d)[8..] == Pack(d[5..]);
      SamePrefix(Pack(d), g);
      assert d == [d[0], d[1], d[2], d[3], d[4]] + d[5..];
    } else {
      TailHasLength(d);
      UnpackPackedTail(d);
    }
  }

  lemma SamePrefix(v: seq<code>, w: seq<code>)
    requires |v| >= 8 && |w| >= 8 && v[..8] == w[..8]
    ensures Unpack8(v) == Unpack8(w)
  {
    assert forall i :: 0 <= i < 8 ==> v[i] == v[..8][i] && w[i] == w[..8][i];
  }

  lemma UnpackPackedTail(d: seq<byte>)
    requires |d| < 5
    ensures |PackTail(d)| < 8 && UnpackTail(PackTail(d)) == Some(d)
  {
    hide Byte0, Byte1, Byte2, Quintets, Left0, Left1, Left2, Left3, Q0, T0, T1, T2, T3;
    if |d| == 1 {
      LeftBack(d[0], 0, 0, 0, 0);
      FirstQuintet(d[0], 0, 0, 0, 0);
      assert d == [d[0]];
    } else if |d| == 2 {
      BackFrom(d[0], d[1], 0, 0, 0);
      LeftBack(d[0], d[1], 0, 0, 0);
      assert d == [d[0], d[1]];
    } else if |d| == 3 {
      BackFrom(d[0], d[1], d[2], 0, 0);
      LeftBack(d[0], d[1], d[2], 0, 0);
      assert d == [d[0], d[1], d[2]];
    } else if |d| == 4 {
      BackFrom(d[0], d[1], d[2], d[3], 0);
      LeftBack(d[0], d[1], d[2], d[3], 0);
      assert d == [d[0], d[1], d[2], d[3]];
    }
  }

  lemma FirstQuintet(a: byte, b: byte, c: byte, d: byte, e: byte)
    ensures Quintets(a, b, c, d, e)[0] == Q0(a)
  {
  }

  // ----- unpacking, bit by bit

  /** Bit `j` of a word in two's complement: all bits of -1 are set. */
  predicate Bit(x: int, j: nat)
    decreases j
  {
    if j == 0 then x % 2 == 1 else Bit(x / 2, j - 1)
  }

  /** Bit `j` of `x << k`. */
  predicate Shifted(x: int, k: nat, j: nat) { j >= k && Bit(x, j - k) }

  /** The bytes of a full group are the low eight bits of the shifts and ors of its codes,
      unknown symbols included. */
  lemma GroupIsOrs(v: seq<code>, j: nat)
    requires |v| >= 8 && j < 8
    ensures var s := Unpack8(v);
            && (Bit(s[0], j) <==> Shifted(v[0], 3, j) || Bit(v[1] / 4, j))
            && (Bit(s[1], j) <==> Shifted(v[1], 6, j) || Shifted(v[2], 1, j) || Bit(v[3] / 16, j))
            && (Bit(s[2], j) <==> Shifted(v[3], 4, j) || Bit(v[4] / 2, j))
            && (Bit(s[3], j) <==> Shifted(v[4], 7, j) || Shifted(v[5], 2, j) || Bit(v[6] / 8, j))
            && (Bit(s[4], j) <==> Shifted(v[6], 5, j) || Bit(v[7], j))
  {
    hide Left0, Left1, Left2, Left3, Byte4, Bit, Shifted;
    Left0IsOr(v[0], v[1] / 4, j);
    Left1IsOr(v[1], v[2], v[3] / 16, j);
    Left2IsOr(v[3], v[4] / 2, j);
    Left3IsOr(v[4], v[5], v[6] / 8, j);
    Byte4IsOr(v[6], v[7], j);
  }

  /** And so is the last byte of a short group, the leftover or-ed in unshifted. */
  lemma TailIsOrs(v: seq<code>, j: nat)
    requires |v| < 8 && j < 8 && v != [] && UnpackTail(v).Some?
    ensures var s, t := UnpackTail(v).value, v[|v| - 1];
            && s != []
            && var b := s[|s| - 1];
               && (|v| == 2 ==> (Bit(b, j) <==> Shifted(v[0], 3, j) || Bit(t, j)))
               && (|v| == 4 ==> (Bit(b, j) <==> Shifted(v[1], 6, j) || Shifted(v[2], 1, j) || Bit(t, j)))
               && (|v| == 5 ==> (Bit(b, j) <==> Shifted(v[3], 4, j) || Bit(t, j)))
               && (|v| == 7 ==> (Bit(b, j) <==> Shifted(v[4], 7, j) || Shifted(v[5], 2, j) || Bit(t, j)))
  {
    hide Left0, Left1, Left2, Left3, Byte0, Byte1, Byte2, Bit, Shifted;
    var t := v[|v| - 1];
    if |v| == 2 { Left0IsOr(v[0], t, j); }
    if |v| == 4 { Left1IsOr(v[1], v[2], t, j); }
    if |v| == 5 { Left2IsOr(v[3], t, j); }
    if |v| == 7 { Left3IsOr(v[4], v[5], t, j); }
  }

  /** The bits of a number and of `k` lower bits put behind it. */
  lemma {:induction false} JoinedBits(h: int, k: nat, t: nat, j: nat)
    requires t < Arith.Pow2(k)
    ensures Bit(h * Arith.Pow2(k) + t, j) <==> if j >= k then Bit(h, j - k) else Bit(t, j)
  {
    hide Bit;
    var x := h * Arith.Pow2(k) + t;
    if k > 0 {
      Halved(h, Arith.Pow2(k - 1), t);
      NextBit(x, j);
      NextBit(t, j);
      if j > 0 { JoinedBits(h, k - 1, t / 2, j - 1); }
    }
  }

  lemma NextBit(x: int, j: nat)
    ensures Bit(x, j) <==> if j == 0 then x % 2 == 1 else Bit(x / 2, j - 1)
  {
  }

  lemma Halved(h: int, w: nat, t: nat)
    ensures (h * (2 * w) + t) / 2 == h * w + t / 2 && (h * (2 * w) + t) % 2 == t % 2
  {
    assert h * (2 * w) == 2 * (h * w);
  }

  lemma {:induction false} PlainBits(j: nat)
    ensures Bit(-1, j) && !Bit(0, j)
  {
    if j > 0 { PlainBits(j - 1); }
  }

  lemma NoHighBit(k: nat, t: nat, j: nat)
    requires t < Arith.Pow2(k) && j >= k
    ensures !Bit(t, j)
  {
    JoinedBits(0, k, t, j);
    PlainBits(j - k);
  }

  lemma Powers()
    ensures Arith.Pow2(1) == 2 && Arith.Pow2(2) == 4 && Arith.Pow2(3) == 8 && Arith.Pow2(4) == 16
    ensures Arith.Pow2(5) == 32 && Arith.Pow2(6) == 64 && Arith.Pow2(7) == 128 && Arith.Pow2(8) == 256
  {
    assert Arith.Pow2(0) == 1 && Arith.Pow2(1) == 2 && Arith.Pow2(2) == 4 && Arith.Pow2(3) == 8;
    assert Arith.Pow2(4) == 16 && Arith.Pow2(5) == 32 && Arith.Pow2(6) == 64;
  }

  /** The low bits of `x << k | t`, cut off at `n` more bits. */
  lemma OrIsJoin(x: int, n: nat, k: nat, t: nat, j: nat)
    requires t < Arith.Pow2(k) && j < n + k
    ensures Bit(x % Arith.Pow2(n) * Arith.Pow2(k) + t, j) <==> Shifted(x, k, j) || Bit(t, j)
  {
    hide Bit;
    var w := Arith.Pow2(n);
    JoinedBits(x % w, k, t, j);
    if j >= k {
      NoHighBit(k, t, j);
      JoinedBits(x / w, n, x % w, j - k);
    }
  }

  lemma AllOnes(j: nat)
    requires j < 8
    ensures Bit(255, j) && Bit(-1, j)
  {
    hide Bit;
    Powers();
    PlainBits(j);
    JoinedBits(-1, 8, 255, j);
  }

  /** Bit 0 set. */
  lemma LowBitSet(x: int, j: nat)
    ensures Bit(if x % 2 == 0 then x + 1 else x, j) <==> Bit(x, j) || j == 0
  {
  }

  /** The single bit `k`. */
  lemma OneBit(k: nat, j: nat)
    ensures Bit(Arith.Pow2(k), j) <==> j == k
  {
    JoinedBits(1, k, 0, j);
    PlainBits(j);
    if j > k { PlainBits(j - k - 1); }
  }

  lemma Left0IsOr(v0: code, t: code, j: nat)
    requires t <= 7 && j < 8
    ensures Bit(Left0(v0, t), j) <==> Shifted(v0, 3, j) || Bit(t, j)
  {
    hide Bit, Shifted, Arith.Pow2;
    Powers();
    if t < 0 { AllOnes(j); } else { OrIsJoin(v0, 5, 3, t, j); }
  }

  lemma Left1IsOr(v1: code, v2: code, t: code, j: nat)
    requires t <= 1 && j < 8
    ensures Bit(Left1(v1, v2, t), j) <==> Shifted(v1, 6, j) || Shifted(v2, 1, j) || Bit(t, j)
  {
    hide Bit, Arith.Pow2;
    Powers();
    if t < 0 {
      AllOnes(j);
    } else if v2 < 0 {
      OrIsJoin(-1, 7, 1, t, j);
      if j >= 1 { AllOnes(j - 1); }
    } else {
      JoinedBits(v2, 1, t, j);
      if j >= 1 { NoHighBit(1, t, j); }
      OrIsJoin(v1, 2, 6, v2 * 2 + t, j);
    }
  }

  lemma Left2IsOr(v3: code, t: code, j: nat)
    requires t <= 16 && j < 8
    ensures Bit(Left2(v3, t), j) <==> Shifted(v3, 4, j) || Bit(t, j)
  {
    hide Bit, Arith.Pow2;
    Powers();
    if t < 0 {
      AllOnes(j);
    } else if t == 16 {
      var x := if v3 % 2 == 0 then v3 + 1 else v3;
      assert Left2(v3, t) == x % 16 * 16 + 0;
      OrIsJoin(x, 4, 4, 0, j);
      PlainBits(j);
      OneBit(4, j);
      if j >= 4 { LowBitSet(v3, j - 4); }
    } else {
      OrIsJoin(v3, 4, 4, t, j);
    }
  }

  lemma Left3IsOr(v4: code, v5: code, t: code, j: nat)
    requires t <= 4 && j < 8
    ensures Bit(Left3(v4, v5, t), j) <==> Shifted(v4, 7, j) || Shifted(v5, 2, j) || Bit(t, j)
  {
    hide Bit, Arith.Pow2;
    Powers();
    if t < 0 {
      AllOnes(j);
    } else {
      var x := if t == 4 && v5 % 2 == 0 then v5 + 1 else v5;
      var low := if t == 4 then 0 else t;
      LowerBits(v5, t, x, low, j);
      if v5 < 0 {
        if j >= 2 { AllOnes(j - 2); }
        OrIsJoin(-1, 6, 2, low, j);
      } else {
        JoinedBits(x, 2, low, j);
        if j >= 2 { NoHighBit(2, low, j); }
        OrIsJoin(v4, 1, 7, x * 4 + low, j);
      }
    }
  }

  lemma LowerBits(v5: code, t: code, x: int, low: nat, j: nat)
    requires 0 <= t <= 4 && x == (if t == 4 && v5 % 2 == 0 then v5 + 1 else v5)
    requires low == if t == 4 then 0 else t
    ensures Shifted(x, 2, j) || Bit(low, j) <==> Shifted(v5, 2, j) || Bit(t, j)
  {
    hide Bit, Arith.Pow2;
    Powers();
    if t == 4 {
      PlainBits(j);
      OneBit(2, j);
      if j >= 2 { LowBitSet(v5, j - 2); }
    }
  }

  lemma Byte4IsOr(v6: code, v7: code, j: nat)
    requires j < 8
    ensures Bit(Byte4(v6, v7), j) <==> Shifted(v6, 5, j) || Bit(v7, j)
  {
    hide Bit, Shifted, Arith.Pow2;
    Powers();
    if v7 < 0 { AllOnes(j); } else { OrIsJoin(v6, 3, 5, v7, j); }
  }

  // ----- texts

  function Spelled(a: Alphabet, q: seq<quintet>): (s: string)
    ensures |s| == |q|
  {
    seq(|q|, i requires 0 <= i < |q| => Symbol(a, q[i]))
  }

  function Encode(a: Alphabet, d: seq<byte>): (s: string) { Spelled(a, Pack(d)) }

  predicate Known(crockford: bool, s: string) { forall i :: 0 <= i < |s| ==> Code(crockford, s[i]).Some? }

  function Codes(crockford: bool, s: string): (v: seq<code>)
    requires Known(crockford, s)
    ensures |v| == |s|
  {
    seq(|s|, i requires 0 <= i < |s| => Code(crockford, s[i]).value)
  }

  /** Decoding by groups, as the loop goes. */
  function DecodeText(crockford: bool, s: string): (r: Option<seq<byte>>) {
    if |s| >= 8 then
      if !Known(crockford, s[..8]) then None
      else Prepend(Unpack8(Codes(crockford, s[..8])), DecodeText(crockford, s[8..]))
    else if !Known(crockford, s) then None else UnpackTail(Codes(crockford, s))
  }

  function Prepend(p: seq<byte>, r: Option<seq<byte>>): Option<seq<byte>> {
    match r
    case None => None
    case Some(s) => Some(p + s)
  }

  /** The caller's length is checked before anything else. */
  function Decode(crockford: bool, n: nat, s: string): (r: Option<seq<byte>>) {
    if DecodeLength(|s|) != n then None else DecodeText(crockford, s)
  }

  lemma {:induction false} TextIsUnpacked(crockford: bool, s: string)
    ensures DecodeText(crockford, s) == if Known(crockford, s) then Unpack(Codes(crockford, s)) else None
  {
    hide Code, Unpack8, UnpackTail;
    if |s| >= 8 {
      var r := s[8..];
      TextIsUnpacked(crockford, r);
      assert forall i :: 0 <= i < |s| ==> s[i] == if i < 8 then s[..8][i] else r[i - 8];
      if Known(crockford, s) {
        assert Known(crockford, s[..8]);
        assert Known(crockford, r);
        var v := Codes(crockford, s);
        assert v[8..] == Codes(crockford, r);
        SamePrefix(v, Codes(crockford, s[..8]));
      } else if Known(crockford, s[..8]) {
        assert forall j :: 0 <= j < 8 ==> Code(crockford, s[..8][j]).Some?;
        var i :| 0 <= i < |s| && Code(crockford, s[i]).None?;
        assert s[i] == r[i - 8];
      }
    }
  }

  /** Decoding undoes encoding, in all six alphabets. */
  lemma DecodeEncoded(a: Alphabet, d: seq<byte>)
    ensures |Encode(a, d)| == EncodeLength(|d|)
    ensures Decode(a.Crockford?, |d|, Encode(a, d)) == Some(d)
  {
    hide Code, Symbol, Pack, Unpack, DecodeText, DecodeLength, EncodeLength;
    PackHasLength(d);
    UnpackPacked(d);
    var q, s := Pack(d), Encode(a, d);
    forall i | 0 <= i < |s| ensures Code(a.Crockford?, s[i]) == Some(q[i]) { CodeOfSymbol(a, q[i]); }
    assert Codes(a.Crockford?, s) == q;
    TextIsUnpacked(a.Crockford?, s);
  }

  /** What is accepted: a length that some encoding has and that the caller expects, symbols
      the table knows, and a last symbol within the limit of its group. */
  lemma AcceptedIff(crockford: bool, n: nat, s: string)
    ensures var groups, r := |s| / 8, |s| % 8;
            Decode(crockford, n, s).Some? <==>
            && (forall i :: 0 <= i < |s| ==> Code(crockford, s[i]).Some?)
            && (|| (r == 0 && n == 5 * groups)
                || (r == 2 && n == 5 * groups + 1 && Code(crockford, s[|s| - 1]).value <= 7)
                || (r == 4 && n == 5 * groups + 2 && Code(crockford, s[|s| - 1]).value <= 1)
                || (r == 5 && n == 5 * groups + 3 && Code(crockford, s[|s| - 1]).value <= 16)
                || (r == 7 && n == 5 * groups + 4 && Code(crockford, s[|s| - 1]).value <= 4))
  {
    hide Code, Unpack, DecodeText;
    TextIsUnpacked(crockford, s);
    if Known(crockford, s) { UnpackedIff(Codes(crockford, s)); }
  }

  lemma {:induction false} UnpackedIff(v: seq<code>)
    ensures Unpack(v).Some? <==> TailLength(|v| % 8) >= 0 && (|v| % 8 != 0 ==> v[|v| - 1] <= TailLimit(|v| % 8))
    ensures Unpack(v).Some? ==> |Unpack(v).value| == DecodeLength(|v|)
  {
    hide Unpack8, TailLength, TailLimit, DecodeLength;
    if |v| >= 8 {
      UnpackedIff(v[8..]);
      LengthsOfGroup(0, |v| - 8);
    } else {
      UnpackedTailIff(v);
    }
  }

  lemma UnpackedTailIff(v: seq<code>)
    requires |v| < 8
    ensures UnpackTail(v).Some? <==> TailLength(|v|) >= 0 && (|v| != 0 ==> v[|v| - 1] <= TailLimit(|v|))
    ensures UnpackTail(v).Some? ==> |UnpackTail(v).value| == DecodeLength(|v|)
  {
  }

  // ----- the other direction

  /** A leftover that the limit lets through although no encoding has it. */
  predicate LooseTail(v: seq<code>) {
    v != [] && ((|v| % 8 == 5 && v[|v| - 1] == 16) || (|v| % 8 == 7 && v[|v| - 1] == 4))
  }

  predicate Proper(v: seq<code>) { forall i :: 0 <= i < |v| ==> v[i] >= 0 }

  lemma {:induction false} PackUnpacked(v: seq<code>)
    requires Proper(v) && Unpack(v).Some?
    ensures Pack(Unpack(v).value) == v <==> !LooseTail(v)
  {
    hide Unpack8, UnpackTail, Quintets, PackTail;
    if |v| >= 8 {
      var r := v[8..];
      PackUnpacked(r);
      var g := Unpack8(v);
      var d := Unpack(v).value;
      assert d == g + Unpack(r).value && d[5..] == Unpack(r).value;
      PackGroup(v);
      assert Pack(d) == v[..8] + Pack(d[5..]);
      assert LooseTail(r) <==> LooseTail(v);
      if Pack(d) == v { assert Pack(d[5..]) == Pack(d)[8..] == r; }
    } else {
      PackUnpackedTail(v);
      UnpackedTailIff(v);
    }
  }

  lemma PackGroup(v: seq<code>)
    requires |v| >= 8 && Proper(v)
    ensures var g := Unpack8(v); Quintets(g[0], g[1], g[2], g[3], g[4]) == v[..8]
  {
    var g := Unpack8(v);
    Requintet(v[0], v[1], v[2], v[3], v[4], v[5], v[6], v[7]);
  }

  lemma Requintet(a: quintet, b: quintet, c: quintet, d: quintet, e: quintet, f: quintet, g: quintet, h: quintet)
    ensures Quintets(Byte0(a, b), Byte1(b, c, d), Byte2(d, e), Byte3(e, f, g), Byte4(g, h)) == [a, b, c, d, e, f, g, h]
  {
    hide Q0, T0, H1, Q2, T1, H2, T2, H3, Q5, T3, H4, Q7, Left0, Left1, Left2, Left3, Byte4;
    Fields0(a, b / 4);
    Fields1(b, c, d / 16);
    Fields2(d, e / 2);
    Fields3(e, f, g / 8);
    Fields4(g, h);
  }

  // The fields of the bytes that decoding builds.

  lemma Fields0(a: quintet, t: int)
    requires 0 <= t < 8
    ensures Q0(Left0(a, t)) == a && T0(Left0(a, t)) == t
  {
    assert a % 32 == a;
    Arith.DivModUnique(a * 8 + t, 8, a, t);
  }

  lemma Fields1(b: quintet, c: quintet, t: int)
    requires 0 <= t < 2
    ensures H1(Left1(b, c, t)) == b % 4 && Q2(Left1(b, c, t)) == c && T1(Left1(b, c, t)) == t
  {
    var h := b % 4;
    Arith.DivModUnique(h * 64 + c * 2 + t, 64, h, c * 2 + t);
    Arith.DivModUnique(h * 64 + c * 2 + t, 2, h * 32 + c, t);
    Arith.DivModUnique(h * 32 + c, 32, h, c);
  }

  lemma Fields2(d: quintet, t: int)
    requires 0 <= t < 16
    ensures H2(Left2(d, t)) == d % 16 && T2(Left2(d, t)) == t
  {
    Arith.DivModUnique(d % 16 * 16 + t, 16, d % 16, t);
  }

  lemma Fields3(e: quintet, f: quintet, t: int)
    requires 0 <= t < 4
    ensures H3(Left3(e, f, t)) == e % 2 && Q5(Left3(e, f, t)) == f && T3(Left3(e, f, t)) == t
  {
    var h := e % 2;
    Arith.DivModUnique(h * 128 + f * 4 + t, 128, h, f * 4 + t);
    Arith.DivModUnique(h * 128 + f * 4 + t, 4, h * 32 + f, t);
    Arith.DivModUnique(h * 32 + f, 32, h, f);
  }

  lemma Fields4(g: quintet, h: quintet)
    ensures H4(Byte4(g, h)) == g % 8 && Q7(Byte4(g, h)) == h
  {
    Arith.DivModUnique(g % 8 * 32 + h, 32, g % 8, h);
  }

  lemma PackUnpackedTail(v: seq<code>)
    requires |v| < 8 && Proper(v) && UnpackTail(v).Some?
    ensures |UnpackTail(v).value| < 5 && (PackTail(UnpackTail(v).value) == v <==> !LooseTail(v))
  {
    hide Byte0, Byte1, Byte2, Byte3, Left0, Left1, Left2, Left3, Quintets;
    if |v| == 2 {
      RepackOne(v[0], v[1]);
      assert v == [v[0], v[1]];
    } else if |v| == 4 {
      RepackTwo(v[0], v[1], v[2], v[3]);
      assert v == [v[0], v[1], v[2], v[3]];
    } else if |v| == 5 {
      RepackThree(v[0], v[1], v[2], v[3], v[4]);
      assert v == [v[0], v[1], v[2], v[3], v[4]];
    } else if |v| == 7 {
      RepackFour(v[0], v[1], v[2], v[3], v[4], v[5], v[6]);
      assert v == [v[0], v[1], v[2], v[3], v[4], v[5], v[6]];
    }
  }

  lemma RepackOne(a: quintet, t: quintet)
    requires t <= 7
    ensures PackTail([Left0(a, t)]) == [a, t]
  {
    hide Q0, T0, Left0, Quintets;
    Fields0(a, t);
  }

  lemma RepackTwo(a: quintet, b: quintet, c: quintet, t: quintet)
    requires t <= 1
    ensures PackTail([Byte0(a, b), Left1(b, c, t)]) == [a, b, c, t]
  {
    hide Q0, T0, H1, Q2, T1, H2, T2, H3, Q5, T3, H4, Q7, Left0, Left1;
    Fields0(a, b / 4);
    Fields1(b, c, t);
  }

  lemma RepackThree(a: quintet, b: quintet, c: quintet, d: quintet, t: quintet)
    requires t <= 16
    ensures var q := PackTail([Byte0(a, b), Byte1(b, c, d), Left2(d, t)]);
            |q| == 5 && (t == 16 ==> q[4] == 0) && (t < 16 ==> q == [a, b, c, d, t])
  {
    hide Q0, T0, H1, Q2, T1, H2, T2, H3, Q5, T3, H4, Q7, Left0, Left1, Left2;
    Fields0(a, b / 4);
    Fields1(b, c, d / 16);
    if t < 16 { Fields2(d, t); } else { ThirdLoose(d); }
  }

  lemma ThirdLoose(d: quintet)
    ensures T2(Left2(d, 16)) == 0
  {
  }

  lemma RepackFour(a: quintet, b: quintet, c: quintet, d: quintet, e: quintet, f: quintet, t: quintet)
    requires t <= 4
    ensures var q := PackTail([Byte0(a, b), Byte1(b, c, d), Byte2(d, e), Left3(e, f, t)]);
            |q| == 7 && (t == 4 ==> q[6] == 0) && (t < 4 ==> q == [a, b, c, d, e, f, t])
  {
    hide Q0, T0, H1, Q2, T1, H2, T2, H3, Q5, T3, H4, Q7, Left0, Left1, Left2, Left3;
    Fields0(a, b / 4);
    Fields1(b, c, d / 16);
    Fields2(d, e / 2);
    if t < 4 { Fields3(e, f, t); } else { FourthLoose(e, f); }
  }

  lemma FourthLoose(e: quintet, f: quintet)
    ensures T3(Left3(e, f, 4)) == 0
  {
  }

  /** With the extended hex alphabet, encoding what was decoded gives the text back in upper
      case, except after a leftover that only the limit lets through. */
  lemma EncodeDecoded(s: string)
    requires DecodeText(false, s).Some?
    ensures Known(false, s)
    ensures Encode(ExtendHex(true), DecodeText(false, s).value) == seq(|s|, i requires 0 <= i < |s| => UpperCase(s[i]))
            <==> !LooseTail(Codes(false, s))
  {
    hide Code, Symbol, Pack, Unpack, DecodeText, UpperCase;
    TextIsUnpacked(false, s);
    var v := Codes(false, s);
    var d := DecodeText(false, s).value;
    PackUnpacked(v);
    forall i | 0 <= i < |s| ensures Symbol(ExtendHex(true), v[i]) == UpperCase(s[i]) { SymbolOfCode(s[i]); }
    var upper := seq(|s|, i requires 0 <= i < |s| => UpperCase(s[i]));
    var t := Encode(ExtendHex(true), d);
    if Pack(d) == v { assert t == upper; }
    if t == upper {
      assert |Pack(d)| == |v|;
      forall i | 0 <= i < |v| ensures Pack(d)[i] == v[i] {
        assert t[i] == upper[i];
        CodeOfSymbol(ExtendHex(true), Pack(d)[i]);
        CodeOfSymbol(ExtendHex(true), v[i]);
      }
      assert Pack(d) == v;
    }
  }

  /** Two texts of the same data: the second is what its encoding looks like. */
  lemma LooseTailCollides()
    ensures DecodeText(false, "0000G") == Some([0, 0, 16]) == DecodeText(false, "00010")
  {
    DecodesAs(false, "0000G", [0, 0, 0, 0, 16]);
    DecodesAs(false, "00010", [0, 0, 0, 1, 0]);
  }

  /** A character that the Crockford table does not know passes as a code of all ones. */
  lemma CrockfordLetsUnknownPass()
    ensures Decode(true, 1, "=0") == Some([248])
  {
    DecodesAs(true, "=0", [-1, 0]);
  }

  lemma DecodesAs(crockford: bool, s: string, v: seq<code>)
    requires |s| == |v| < 8 && forall i :: 0 <= i < |s| ==> Code(crockford, s[i]) == Some(v[i])
    ensures DecodeText(crockford, s) == UnpackTail(v)
  {
    hide Code, UnpackTail;
    assert Known(crockford, s) && Codes(crockford, s) == v;
  }

  // ----- the loops

  method StoreGroup(a: Alphabet, dst: array<char>, o: nat, d: seq<byte>)
    requires |d| >= 5 && o + 8 <= dst.Length
    modifies dst
    ensures var q := Quintets(d[0], d[1], d[2], d[3], d[4]);
            forall j :: 0 <= j < 8 ==> dst[o + j] == Symbol(a, q[j])
    ensures forall j :: 0 <= j < dst.Length && !(o <= j < o + 8) ==> dst[j] == old(dst[j])
  {
    hide Symbol;
    dst[o], dst[o + 1] := Symbol(a, Q0(d[0])), Symbol(a, T0(d[0]) * 4 + H1(d[1]));
    dst[o + 2], dst[o + 3] := Symbol(a, Q2(d[1])), Symbol(a, T1(d[1]) * 16 + H2(d[2]));
    dst[o + 4], dst[o + 5] := Symbol(a, T2(d[2]) * 2 + H3(d[3])), Symbol(a, Q5(d[3]));
    dst[o + 6], dst[o + 7] := Symbol(a, T3(d[3]) * 8 + H4(d[4])), Symbol(a, Q7(d[4]));
  }

  method StoreTail(a: Alphabet, dst: array<char>, o: nat, d: seq<byte>)
    requires |d| < 5 && o + |PackTail(d)| <= dst.Length
    modifies dst
    ensures forall j :: 0 <= j < |PackTail(d)| ==> dst[o + j] == Symbol(a, PackTail(d)[j])
    ensures forall j :: 0 <= j < dst.Length && !(o <= j < o + |PackTail(d)|) ==> dst[j] == old(dst[j])
  {
    hide Symbol, Q0, T0, H1, Q2, T1, H2, T2, H3, Q5, T3, H4, Q7;
    if d == [] { return; }
    dst[o] := Symbol(a, Q0(d[0]));
    if |d| == 1 {
      dst[o + 1] := Symbol(a, T0(d[0]));
      return;
    }
    dst[o + 1] := Symbol(a, T0(d[0]) * 4 + H1(d[1]));
    dst[o + 2] := Symbol(a, Q2(d[1]));
    if |d| == 2 {
      dst[o + 3] := Symbol(a, T1(d[1]));
      return;
    }
    dst[o + 3] := Symbol(a, T1(d[1]) * 16 + H2(d[2]));
    if |d| == 3 {
      dst[o + 4] := Symbol(a, T2(d[2]));
      return;
    }
    dst[o + 4] := Symbol(a, T2(d[2]) * 2 + H3(d[3]));
    dst[o + 5] := Symbol(a, Q5(d[3]));
    dst[o + 6] := Symbol(a, T3(d[3]));
  }

  method PutGroup(a: Alphabet, dst: array<char>, o: nat, d: seq<byte>)
    requires |d| >= 5 && o + 8 <= dst.Length
    modifies dst
    ensures dst[..] == old(dst[..o]) + Spelled(a, Quintets(d[0], d[1], d[2], d[3], d[4])) + old(dst[o + 8..])
  {
    hide Spelled, Symbol, Quintets;
    StoreGroup(a, dst, o, d);
    SpelledAt(a, Quintets(d[0], d[1], d[2], d[3], d[4]), dst[o..o + 8]);
    assert dst[..] == dst[..o] + dst[o..o + 8] + dst[o + 8..];
  }

  method PutTail(a: Alphabet, dst: array<char>, o: nat, d: seq<byte>)
    requires |d| < 5 && o + |PackTail(d)| <= dst.Length
    modifies dst
    ensures dst[..] == old(dst[..o]) + Spelled(a, PackTail(d)) + old(dst[o + |PackTail(d)|..])
  {
    hide Spelled, Symbol, PackTail;
    StoreTail(a, dst, o, d);
    ghost var n := |PackTail(d)|;
    SpelledAt(a, PackTail(d), dst[o..o + n]);
    assert dst[..] == dst[..o] + dst[o..o + n] + dst[o + n..];
  }

  method Base32Encode(a: Alphabet, dst: array<char>, d: seq<byte>)
    requires dst.Length >= EncodeLength(|d|)
    modifies dst
    ensures |Encode(a, d)| == EncodeLength(|d|)
    ensures dst[..] == Encode(a, d) + old(dst[EncodeLength(|d|)..])
  {
    hide Spelled, Symbol, Quintets, PackTail, Pack, EncodeLength, DecodeLength, TailLength, Encode;
    EncodeIs(a, d);
    PackHasLength(d);
    ghost var was := dst[..];
    var i, o := 0, 0;
    assert d[0..] == d;
    while i + 4 < |d|
      invariant 0 <= i <= |d| && o + EncodeLength(|d| - i) == EncodeLength(|d|) <= |was| == dst.Length
      invariant Encode(a, d) == dst[..o] + Encode(a, d[i..])
      invariant dst[o..] == was[o..]
      decreases |d| - i
    {
      ghost var before := dst[..o];
      LengthsOfGroup(|d| - i - 5, 0);
      PutGroup(a, dst, o, d[i..]);
      EncodeGroup(a, d[i..]);
      assert dst[..o + 8] == before + Spelled(a, Quintets(d[i], d[i + 1], d[i + 2], d[i + 3], d[i + 4]));
      assert d[i..][5..] == d[i + 5..];
      i, o := i + 5, o + 8;
    }
    ghost var before := dst[..o];
    var t := d[i..];
    TailHasLength(t);
    EncodeIs(a, t);
    PackStep(t);
    PutTail(a, dst, o, t);
    assert was[EncodeLength(|d|)..] == was[o..][|PackTail(t)|..];
  }

  lemma EncodeIs(a: Alphabet, d: seq<byte>)
    ensures Encode(a, d) == Spelled(a, Pack(d))
  {
  }

  /** A text that shows the symbol of every code is the spelling of the codes. */
  lemma SpelledAt(a: Alphabet, q: seq<quintet>, s: string)
    requires |s| == |q| && forall j :: 0 <= j < |q| ==> s[j] == Symbol(a, q[j])
    ensures s == Spelled(a, q)
  {
    hide Symbol;
  }

  lemma EncodeGroup(a: Alphabet, d: seq<byte>)
    requires |d| >= 5
    ensures Encode(a, d) == Spelled(a, Quintets(d[0], d[1], d[2], d[3], d[4])) + Encode(a, d[5..])
  {
    hide Spelled, Quintets;
    PackStep(d);
    SpelledConcat(a, Quintets(d[0], d[1], d[2], d[3], d[4]), Pack(d[5..]));
  }

  lemma SpelledConcat(a: Alphabet, q: seq<quintet>, r: seq<quintet>)
    ensures Spelled(a, q + r) == Spelled(a, q) + Spelled(a, r)
  {
    hide Symbol;
  }

  lemma PackStep(d: seq<byte>)
    ensures |d| >= 5 ==> Pack(d) == Quintets(d[0], d[1], d[2], d[3], d[4]) + Pack(d[5..])
    ensures |d| < 5 ==> Pack(d) == PackTail(d)
  {
    hide Quintets, PackTail;
  }

  /** A text that fails midway leaves its first groups in the buffer. Lengths that no encoding
      has go with a nonempty buffer: with an empty one the length test lets them pass. */
  method Base32Decode(crockford: bool, dst: array<byte>, s: string) returns (ok: bool)
    requires TailLength(|s| % 8) >= 0 || dst.Length != 0
    modifies dst
    ensures ok <==> Decode(crockford, dst.Length, s).Some?
    ensures ok ==> dst[..] == Decode(crockford, dst.Length, s).value
  {
    hide Code, Unpack8, UnpackTail, DecodeText, DecodeLength, Prepend, Known, Codes;
    LengthGuard(|s|);
    if DecodeLength(|s|) != dst.Length { return false; }
    var i, o := 0, 0;
    assert s[0..] == s && dst[..0] == [];
    PrependNothing(DecodeText(crockford, s));
    while i + 8 <= |s|
      invariant 0 <= i <= |s| && TailLength((|s| - i) % 8) >= 0 && o + DecodeLength(|s| - i) == dst.Length
      invariant DecodeText(crockford, s) == Prepend(dst[..o], DecodeText(crockford, s[i..]))
      decreases |s| - i
    {
      ghost var before := dst[..o];
      ghost var t := s[i..];
      DecodeStep(crockford, t);
      assert t[..8] == s[i..i + 8] && t[8..] == s[i + 8..];
      PrependSome(before, []);
      if !Known(crockford, s[i..i + 8]) { return false; }
      var g := Unpack8(Codes(crockford, s[i..i + 8]));
      LengthsOfGroup(0, |s| - i - 8);
      dst[o], dst[o + 1], dst[o + 2], dst[o + 3], dst[o + 4] := g[0], g[1], g[2], g[3], g[4];
      assert dst[..o + 5] == before + g;
      PrependTwice(before, g, DecodeText(crockford, t[8..]));
      i, o := i + 8, o + 5;
    }
    ghost var before := dst[..o];
    DecodeStep(crockford, s[i..]);
    PrependSome(before, []);
    if !Known(crockford, s[i..]) { return false; }
    var v := Codes(crockford, s[i..]);
    UnpackedTailIff(v);
    var r := UnpackTail(v);
    if r.None? { return false; }
    forall j | 0 <= j < |r.value| { dst[o + j] := r.value[j]; }
    assert dst[..] == before + r.value;
    PrependSome(before, r.value);
    ok := true;
  }

  lemma PrependSome(p: seq<byte>, s: seq<byte>)
    ensures Prepend(p, Some(s)) == Some(p + s) && Prepend(p, None) == None
  {
  }

  lemma PrependNothing(r: Option<seq<byte>>)
    ensures Prepend([], r) == r
  {
    if r.Some? { assert [] + r.value == r.value; }
  }

  lemma PrependTwice(p: seq<byte>, q: seq<byte>, r: Option<seq<byte>>)
    ensures Prepend(p, Prepend(q, r)) == Prepend(p + q, r)
  {
    if r.Some? { assert p + (q + r.value) == p + q + r.value; }
  }

  lemma LengthGuard(n: nat)
    ensures TailLength(n % 8) < 0 ==> DecodeLength(n) == 0
  {
  }

  lemma DecodeStep(crockford: bool, s: string)
    ensures |s| >= 8 && !Known(crockford, s[..8]) ==> DecodeText(crockford, s) == None
    ensures |s| >= 8 && Known(crockford, s[..8]) ==>
              DecodeText(crockford, s) == Prepend(Unpack8(Codes(crockford, s[..8])), DecodeText(crockford, s[8..]))
    ensures |s| < 8 && !Known(crockford, s) ==> DecodeText(crockford, s) == None
    ensures |s| < 8 && Known(crockford, s) ==> DecodeText(crockford, s) == UnpackTail(Codes(crockford, s))
  {
    hide Code, Unpack8, UnpackTail;
  }
}
