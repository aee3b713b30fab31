/** Byte strings, little-endian words inside them, and overwriting a range. */
module Bytes {
  type byte = b: int | 0 <= b < 256

  const WORD: nat := 0x1_0000_0000   // 2 to the power 32

  datatype Option<T> = None | Some(value: T)

  function Zeros(n: nat): seq<byte> { seq(n, _ => 0) }

  /** A 16-bit and a 32-bit word, least significant byte first. */
  function W16(x: nat): (w: seq<byte>)
    ensures |w| == 2
  {
    [x % 256, x / 256 % 256]
  }

  function W32(x: nat): (w: seq<byte>)
    ensures |w| == 4
  {
    [x % 256, x / 256 % 256, x / 0x1_0000 % 256, x / 0x100_0000 % 256]
  }

  /** The word at `off`. */
  function U16(s: seq<byte>, off: nat): (x: nat)
    requires off + 2 <= |s|
    ensures x < 0x1_0000
  {
    s[off] as int + 256 * s[off + 1] as int
  }

  function U32(s: seq<byte>, off: nat): (x: nat)
    requires off + 4 <= |s|
    ensures x < 0x1_0000_0000
  {
    s[off] as int + 256 * s[off + 1] as int + 0x1_0000 * s[off + 2] as int + 0x100_0000 * s[off + 3] as int
  }

  lemma U32Low(s: seq<byte>, off: nat)
    requires off + 4 <= |s|
    ensures U32(s, off) % 256 == s[off]
  {
  }

  lemma W16Read(x: nat)
    requires x < 0x1_0000
    ensures U16(W16(x), 0) == x
  {
  }

  lemma W32Read(x: nat)
    requires x < 0x1_0000_0000
    ensures U32(W32(x), 0) == x
  {
    assert x / 256 / 256 == x / 0x1_0000;
    assert x / 0x1_0000 / 256 == x / 0x100_0000;
  }

  /** `s` with the bytes from `off` on replaced by `w`. */
  function Splice(s: seq<byte>, off: nat, w: seq<byte>): (r: seq<byte>)
    requires off + |w| <= |s|
    ensures |r| == |s|
  {
    s[..off] + w + s[off + |w|..]
  }

  lemma SpliceOutside(s: seq<byte>, off: nat, w: seq<byte>, a: nat, b: nat)
    requires off + |w| <= |s| && a <= b <= |s| && (b <= off || off + |w| <= a)
    ensures Splice(s, off, w)[a..b] == s[a..b]
  {
  }

  /** Two adjacent writes are one. */
  lemma SpliceTwice(s: seq<byte>, off: nat, a: seq<byte>, b: seq<byte>)
    requires off + |a| + |b| <= |s|
    ensures Splice(Splice(s, off, a), off + |a|, b) == Splice(s, off, a + b)
  {
    var t := Splice(s, off, a);
    assert t[..off + |a|] == s[..off] + a;
    assert t[off + |a| + |b|..] == s[off + |a| + |b|..];
  }

  lemma SpliceAt(s: seq<byte>, off: nat, w: seq<byte>, i: nat)
    requires off + |w| <= |s| && i < |s|
    ensures Splice(s, off, w)[i] == if off <= i < off + |w| then w[i - off] else s[i]
  {
  }

  lemma SpliceSlice(s: seq<byte>, lo: nat, hi: nat, at: nat, w: seq<byte>)
    requires lo + at + |w| <= hi <= |s|
    ensures Splice(s[lo..hi], at, w) == Splice(s, lo + at, w)[lo..hi]
  {
    var a, b := Splice(s[lo..hi], at, w), Splice(s, lo + at, w)[lo..hi];
    assert |a| == |b|;
    forall i | 0 <= i < |a|
      ensures a[i] == b[i]
    {
      SpliceAt(s[lo..hi], at, w, i);
      SpliceAt(s, lo + at, w, lo + i);
    }
  }

  lemma U32Written(s: seq<byte>, off: nat, x: nat)
    requires off + 4 <= |s| && x < 0x1_0000_0000
    ensures U32(Splice(s, off, W32(x)), off) == x
  {
    W32Read(x);
  }

  lemma U32Frame(s: seq<byte>, off: nat, w: seq<byte>, at: nat)
    requires off + |w| <= |s| && at + 4 <= |s| && (at + 4 <= off || off + |w| <= at)
    ensures U32(Splice(s, off, w), at) == U32(s, at)
  {
  }

  /** 64-bit words. */
  function W64(x: nat): (w: seq<byte>)
    ensures |w| == 8
  {
    W32(x % 0x1_0000_0000) + W32(x / 0x1_0000_0000 % 0x1_0000_0000)
  }

  function U64(s: seq<byte>, off: nat): nat
    requires off + 8 <= |s|
  {
    U32(s, off) + 0x1_0000_0000 * U32(s, off + 4)
  }

  lemma U64Written(s: seq<byte>, off: nat, x: nat)
    requires off + 8 <= |s| && x < 0x1_0000_0000_0000_0000
    ensures U64(Splice(s, off, W64(x)), off) == x
  {
    var lo, hi := W32(x % 0x1_0000_0000), W32(x / 0x1_0000_0000 % 0x1_0000_0000);
    assert Splice(s, off, W64(x)) == Splice(Splice(s, off, lo), off + 4, hi);
    U32Written(s, off, x % 0x1_0000_0000);
    U32Written(Splice(s, off, lo), off + 4, x / 0x1_0000_0000 % 0x1_0000_0000);
    U32Frame(Splice(s, off, lo), off + 4, hi, off);
  }

  lemma U64Frame(s: seq<byte>, off: nat, w: seq<byte>, at: nat)
    requires off + |w| <= |s| && at + 8 <= |s| && (at + 8 <= off || off + |w| <= at)
    ensures U64(Splice(s, off, w), at) == U64(s, at)
  {
    U32Frame(s, off, w, at);
    U32Frame(s, off, w, at + 4);
  }

  /** Overwriting part of an array. */
  method Store(a: array<byte>, off: nat, w: seq<byte>)
    requires off + |w| <= a.Length
    modifies a
    ensures a[..] == Splice(old(a[..]), off, w)
  {
    var i := 0;
    while i < |w|
      invariant i <= |w|
      invariant a[..off] == old(a[..off]) && a[off..off + i] == w[..i] && a[off + i..] == old(a[off + i..])
    {
      a[off + i] := w[i];
      i := i + 1;
    }
    assert a[..] == a[..off] + a[off..off + |w|] + a[off + |w|..];
  }
}
