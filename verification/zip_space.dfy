/** The space allocator of FileZip (core/os/file_zip.cpp): entries, holes left by removed
    entries, at most one open claim, and the file bytes behind them. Store mode only.
    UINT arithmetic wraps as in the original wherever the original adds sizes. */
module ZipSpace {
  import opened Bytes

  const LFH: nat := 30                 // sizeof(LocalFileHeader) - 1
  const SPACE_LIMIT: nat := 0xffff_ffff - 23 - 0xffff

  /** The fields of a directory record that vary; `name` is the stored file name. */
  datatype Rec = Rec(compression: nat, time: nat, date: nat, crc: nat, size: nat, sizeOriginal: nat,
                     attrib: nat, offset: nat, name: seq<byte>)

  /** `live` is a nonzero Signature. `local` tells entries that own a local header from
      zero-sized ones, which do not. */
  datatype Entry = Entry(live: bool, local: bool, r: Rec)

  /** The entry being added: what it claimed, from which hole (-1: from the end), and how
      far its data has been written. */
  datatype Claim =
    | NoClaim
    | Claim(r: Rec, claimed: nat, hole: int, taken: nat, cdOld: nat, written: nat, crc: nat)

  datatype Zip = Zip(entries: seq<Entry>, cdStart: nat, modified: bool, claim: Claim, file: seq<byte>)

  const Empty := Zip([], 0, false, NoClaim, [])

  /** A sum stored in a UINT. */
  function Trunc(x: nat): (r: nat)
    ensures r < WORD && (x < WORD ==> r == x)
  {
    x % WORD
  }

  // ----- files

  /** Seek then write: the file grows as needed. */
  function WriteAt(f: seq<byte>, pos: nat, w: seq<byte>): (r: seq<byte>)
    ensures |r| == if w == [] || pos + |w| < |f| then |f| else pos + |w|
    ensures forall i :: 0 <= i < |f| && !(pos <= i < pos + |w|) ==> r[i] == f[i]
    ensures forall i :: pos <= i < pos + |w| ==> r[i] == w[i - pos]
  {
    if w == [] then f
    else
      var g := if |f| < pos + |w| then f + Zeros(pos + |w| - |f|) else f;
      g[..pos] + w + g[pos + |w|..]
  }

  /** The local file header of APPNOTE section 4.3.7, without the name. */
  function Lfh(r: Rec): (w: seq<byte>)
    ensures |w| == LFH
  {
    W32(0x04034b50) + W16(0x000a) + W16(0) + W16(r.compression) + W16(r.time) + W16(r.date)
    + W32(r.crc) + W32(r.size) + W32(r.sizeOriginal) + W16(|r.name|) + W16(0)
  }

  // ----- operations

  /** Backslashes become slashes. */
  function Slashed(path: seq<byte>): (n: seq<byte>)
    ensures |n| == |path|
  {
    seq(|path|, i requires 0 <= i < |path| => if path[i] == 92 then 47 else path[i])
  }

  /** `name` is how the archive spells `path`: a slash for every slash and backslash, every
      other byte as it is. */
  predicate Spells(name: seq<byte>, path: seq<byte>) {
    && |name| == |path|
    && (forall i :: 0 <= i < |path| && (path[i] == 47 || path[i] == 92) ==> name[i] == 47)
    && forall i :: 0 <= i < |path| && path[i] != 47 && path[i] != 92 ==> name[i] == path[i]
  }

  lemma SlashedSpells(path: seq<byte>)
    ensures Spells(Slashed(path), path)
  {
  }

  predicate IsHole(e: Entry, n: nat) { !e.live && e.r.size >= n }

  /** Index of the first hole of at least `n` bytes, or the number of entries. */
  function FindHole(entries: seq<Entry>, n: nat): (h: nat)
    ensures h <= |entries| && (h < |entries| ==> IsHole(entries[h], n))
    ensures forall i :: 0 <= i < h ==> !IsHole(entries[i], n)
  {
    if entries == [] || IsHole(entries[0], n) then 0 else 1 + FindHole(entries[1..], n)
  }

  /** A hole with its front moved by `n` bytes, forward when carved, back when returned. */
  function Carved(e: Entry, n: nat): Entry
    requires n <= e.r.size
  {
    e.(r := e.r.(size := e.r.size - n, offset := e.r.offset + n))
  }

  function Returned(e: Entry, n: nat): Entry {
    e.(r := e.r.(size := e.r.size + n, offset := if e.r.offset >= n then e.r.offset - n else 0))
  }

  /** LFlen of _AddNonZeroFileEntry_Begin, truncated to UINT. */
  function LocalSize(path: seq<byte>, size: nat): nat { Trunc(LFH + |path| + size) }

  /** The allocation of _AddNonZeroFileEntry_Begin, before anything is written. */
  function Allocate(z: Zip, path: seq<byte>, size: nat, time: nat, date: nat): (r: Zip)
  {
    var n := LocalSize(path, size);
    var h := FindHole(z.entries, n);
    if |path| > 0xffff || |z.entries| >= 0xffff then z
    else if h < |z.entries| then
      var rec := Rec(0, time, date, 0, size, size, 0x20, z.entries[h].r.offset, Slashed(path));
      z.(entries := z.entries[h := Carved(z.entries[h], n)], claim := Claim(rec, size, h, n, z.cdStart, 0, 0))
    else if Trunc(z.cdStart + n) > SPACE_LIMIT then z
    else
      var rec := Rec(0, time, date, 0, size, size, 0x20, z.cdStart, Slashed(path));
      z.(cdStart := Trunc(z.cdStart + n), claim := Claim(rec, size, -1, n, z.cdStart, 0, 0))
  }

  function Rollback(z: Zip): Zip
    requires z.claim.Claim? && z.claim.hole < |z.entries|
  {
    var h := z.claim.hole;
    if h >= 0 then z.(entries := z.entries[h := Returned(z.entries[h], z.claim.taken)], claim := NoClaim)
    else z.(cdStart := z.claim.cdOld, claim := NoClaim)
  }

  /** _AddNonZeroFileEntry_Begin; the write of the name puts down `k` of its bytes. */
  function Begin(z: Zip, path: seq<byte>, size: nat, time: nat, date: nat, k: nat): (r: Zip)
    requires z.claim.NoClaim? && k <= |path|
  {
    var a := Allocate(z, path, size, time, date);
    if a.claim.NoClaim? then a
    else
      var b := a.(file := WriteAt(a.file, a.claim.r.offset + LFH, path[..k]));
      if k == |path| then b else Rollback(b)
  }

  /** compress_store::Write; `k` bytes reach the file. */
  function StreamWrite(z: Zip, crc: seq<byte> -> nat, w: seq<byte>, k: nat): Zip
    requires z.claim.Claim? && k <= |w|
  {
    var c := z.claim;
    if Trunc(c.written + |w|) > c.claimed then z
    else
      z.(file := WriteAt(z.file, c.r.offset + LFH + |c.r.name| + c.written, w[..k]),
         claim := c.(crc := crc(w), written := if k == |w| then Trunc(c.written + |w|) else c.written))
  }

  /** The size test of a stream write passes although the claim has no room: the sum has
      left 32 bits. */
  predicate WriteWraps(c: Claim, n: nat)
    requires c.Claim?
  {
    c.written + n >= WORD && Trunc(c.written + n) <= c.claimed
  }

  /** The new entry takes its place and the unused part of the claim goes back. */
  function Commit(z: Zip): Zip
    requires z.claim.Claim? && z.claim.hole < |z.entries| && z.claim.r.size <= z.claim.claimed
  {
    var c := z.claim;
    var saved := c.claimed - c.r.size;
    var entries := if c.hole >= 0 then z.entries[c.hole := Returned(z.entries[c.hole], saved)] else z.entries;
    z.(entries := entries + [Entry(true, true, c.r)], modified := true, claim := NoClaim,
       cdStart := if c.hole >= 0 || z.cdStart < saved then z.cdStart else z.cdStart - saved)
  }

  /** compress_stream::Finalize with _AddNonZeroFileEntry_End; `k` header bytes reach the
      file on commit. */
  function Finalize(z: Zip, commit: bool, k: nat): Zip
    requires z.claim.Claim? && z.claim.hole < |z.entries| && z.claim.written <= z.claim.claimed && k <= LFH
  {
    var c := z.claim.(r := z.claim.r.(crc := z.claim.crc, size := z.claim.written));
    var y := z.(claim := c);
    if !commit then Rollback(y)
    else
      var x := y.(file := WriteAt(y.file, c.r.offset, Lfh(c.r)[..k]));
      if k == LFH then Commit(x) else Rollback(x)
  }

  function Remove(z: Zip, i: nat): Zip
    requires i < |z.entries| && z.entries[i].live
  {
    var e := z.entries[i];
    z.(entries := z.entries[i := e.(live := false, r := e.r.(size := e.r.size + LFH + |e.r.name|))])
  }

  function AddZeroSized(z: Zip, path: seq<byte>, time: nat, date: nat, attrib: nat): Zip
    requires |path| > 0
  {
    if |path| > 0xffff || |z.entries| >= 0xffff then z
    else
      var last := path[|path| - 1];
      var name := Slashed(path) + (if last != 47 && last != 92 && attrib == 0x10 then [47] else []);
      z.(entries := z.entries + [Entry(true, false, Rec(0, time, date, 0, 0, 0, attrib, 0, name))],
         modified := true)
  }

  // ----- what an add does to the entries

  /** The first entry that is removed and has room for `n` bytes. */
  predicate FirstRoom(entries: seq<Entry>, h: nat, n: nat) {
    && h < |entries| && !entries[h].live && entries[h].r.size >= n
    && forall i :: 0 <= i < h ==> entries[i].live || entries[i].r.size < n
  }

  /** The first removed entry with room gives up its front to a new one. */
  lemma AllocateInRoom(z: Zip, path: seq<byte>, size: nat, time: nat, date: nat, h: nat)
    requires z.claim.NoClaim? && 30 + |path| + size < WORD && |path| <= 65535 && |z.entries| < 65535
    requires FirstRoom(z.entries, h, 30 + |path| + size)
    ensures var n := 30 + |path| + size;
            var a := Allocate(z, path, size, time, date);
            && a.claim.Claim? && a.claim.r.offset == z.entries[h].r.offset && a.cdStart == z.cdStart
            && |a.entries| == |z.entries| && !a.entries[h].live && a.entries[h].r.size == z.entries[h].r.size - n
            && a.entries[h].r.offset == z.entries[h].r.offset + n
            && forall i :: 0 <= i < |z.entries| && i != h ==> a.entries[i] == z.entries[i]
  {
    hide Slashed;
    var f := FindHole(z.entries, 30 + |path| + size);
    assert IsHole(z.entries[h], 30 + |path| + size);
    assert f == h;
  }

  /** Without one the data area grows, up to a limit that leaves room for the directory's end
      record and comment; a long name and a full list are refused. */
  lemma AllocateAtEnd(z: Zip, path: seq<byte>, size: nat, time: nat, date: nat)
    requires z.claim.NoClaim? && z.cdStart + 30 + |path| + size < WORD
    requires forall i :: 0 <= i < |z.entries| ==> z.entries[i].live || z.entries[i].r.size < 30 + |path| + size
    ensures var n := 30 + |path| + size;
            var a := Allocate(z, path, size, time, date);
            if |path| > 65535 || |z.entries| >= 65535 || z.cdStart + n > 4294901737 then a == z
            else
              && a.claim.Claim? && a.claim.r.offset == z.cdStart && a.cdStart == z.cdStart + n
              && a.entries == z.entries
  {
    hide Slashed;
  }

  /** What the record of a new entry says, besides its place. */
  lemma AllocateDescribes(z: Zip, path: seq<byte>, size: nat, time: nat, date: nat)
    requires z.claim.NoClaim?
    ensures var a := Allocate(z, path, size, time, date);
            a.claim.Claim? ==>
              && Spells(a.claim.r.name, path) && a.claim.r.time == time && a.claim.r.date == date
              && a.claim.r.attrib == 0x20 && a.claim.r.size == size == a.claim.claimed && a.claim.r.compression == 0
  {
    hide Slashed;
    SlashedSpells(path);
  }

  /** A zero-sized entry goes to the end of the list; a directory gets a slash at the end of
      its name if it has none. */
  lemma ZeroSizedDescribed(z: Zip, path: seq<byte>, time: nat, date: nat, attrib: nat)
    requires |path| > 0
    ensures var y := AddZeroSized(z, path, time, date, attrib);
            if |path| > 65535 || |z.entries| >= 65535 then y == z
            else
              && y.entries[..|y.entries| - 1] == z.entries && y.modified
              && y == z.(entries := y.entries, modified := true)
              && var e := y.entries[|y.entries| - 1];
                 && e.live && !e.local && e.r.time == time && e.r.date == date && e.r.attrib == attrib
                 && e.r.size == e.r.sizeOriginal == e.r.crc == e.r.compression == e.r.offset == 0
                 && (attrib == 0x10 && path[|path| - 1] != 47 && path[|path| - 1] != 92 ==>
                       Spells(e.r.name, path + [47]))
                 && (attrib != 0x10 || path[|path| - 1] == 47 || path[|path| - 1] == 92 ==> Spells(e.r.name, path))
  {
    hide Slashed;
    SlashedSpells(path);
    assert Slashed(path) + [] == Slashed(path);
  }

  // ----- the partition

  /** How many bytes an entry occupies, from its offset. */
  function Len(e: Entry): nat {
    if !e.live then e.r.size else if e.local then LFH + |e.r.name| + e.r.size else 0
  }

  /** Byte `x` of the data area belongs to entry `i`, or to the open claim when `i` is -1. */
  predicate Owner(z: Zip, x: int, i: int) {
    if i == -1 then
      z.claim.Claim? && z.claim.r.offset <= x < z.claim.r.offset + LFH + |z.claim.r.name| + z.claim.claimed
    else
      0 <= i < |z.entries| && z.entries[i].r.offset <= x < z.entries[i].r.offset + Len(z.entries[i])
  }

  ghost predicate Owned(z: Zip, x: int) { exists i :: Owner(z, x, i) }

  /** Live regions, holes and the open claim are disjoint and fill [0, cdStart). */
  ghost predicate Partition(z: Zip) {
    && (forall x, i, j :: Owner(z, x, i) && Owner(z, x, j) ==> i == j)
    && (forall x :: Owned(z, x) <==> 0 <= x < z.cdStart)
  }

  /** The claim is consistent with where it was taken from. */
  predicate Linked(z: Zip) {
    z.claim.Claim? ==>
      var c := z.claim;
      && c.taken == LFH + |c.r.name| + c.claimed && c.written <= c.claimed && c.hole < |z.entries|
      && (if c.hole >= 0 then
            !z.entries[c.hole].live && z.entries[c.hole].r.offset == c.r.offset + c.taken
          else
            c.r.offset == c.cdOld && z.cdStart == c.cdOld + c.taken)
  }

  predicate ZeroSizedAtZero(z: Zip) {
    forall i :: 0 <= i < |z.entries| && z.entries[i].live && !z.entries[i].local ==>
      z.entries[i].r.offset == 0 && z.entries[i].r.size == 0
  }

  ghost predicate Inv(z: Zip) {
    Partition(z) && Linked(z) && ZeroSizedAtZero(z) && z.cdStart < WORD
  }

  lemma EmptyInv()
    ensures Inv(Empty)
  {
  }

  // ----- allocation

  /** The sizes of a claim do not fit 32 bits: the one situation the allocator misjudges. */
  predicate Wraps(z: Zip, path: seq<byte>, size: nat) {
    || LFH + |path| + size >= WORD
    || (FindHole(z.entries, LocalSize(path, size)) == |z.entries| && z.cdStart + LocalSize(path, size) >= WORD)
  }

  lemma CarveKeepsPartition(z: Zip, h: nat, n: nat, c: Claim)
    requires Partition(z) && z.claim.NoClaim? && h < |z.entries| && IsHole(z.entries[h], n)
    requires c.Claim? && c.r.offset == z.entries[h].r.offset && LFH + |c.r.name| + c.claimed == n
    ensures Partition(z.(entries := z.entries[h := Carved(z.entries[h], n)], claim := c))
  {
    var a := z.(entries := z.entries[h := Carved(z.entries[h], n)], claim := c);
    assert forall x, i :: Owner(a, x, i) && i != -1 ==> Owner(z, x, i);
    assert forall x :: Owner(a, x, -1) ==> Owner(z, x, h) && !Owner(a, x, h);
    forall x
      ensures Owned(a, x) <==> Owned(z, x)
    {
      if Owned(z, x) {
        var i :| Owner(z, x, i);
        assert Owner(a, x, i) || Owner(a, x, -1);
      }
      if Owned(a, x) {
        var i :| Owner(a, x, i);
        assert Owner(z, x, if i == -1 then h else i);
      }
    }
  }

  lemma ExtendKeepsPartition(z: Zip, n: nat, c: Claim)
    requires Partition(z) && z.claim.NoClaim?
    requires c.Claim? && c.r.offset == z.cdStart && LFH + |c.r.name| + c.claimed == n
    ensures Partition(z.(cdStart := z.cdStart + n, claim := c))
  {
    var a := z.(cdStart := z.cdStart + n, claim := c);
    assert forall x, i :: i != -1 ==> (Owner(a, x, i) <==> Owner(z, x, i));
    assert forall x :: Owner(a, x, -1) <==> z.cdStart <= x < a.cdStart;
    forall x
      ensures Owned(a, x) <==> Owned(z, x) || z.cdStart <= x < a.cdStart
    {
      if Owned(z, x) { var i :| Owner(z, x, i); assert Owner(a, x, i); }
      if z.cdStart <= x < a.cdStart { assert Owner(a, x, -1); }
    }
    forall x, i, j | Owner(a, x, i) && Owner(a, x, j)
      ensures i == j
    {
      assert i != -1 ==> Owned(z, x);
      assert j != -1 ==> Owned(z, x);
    }
  }

  /** A claim keeps the partition exactly when its sizes fit 32 bits. */
  lemma AllocateKeepsPartitionIff(z: Zip, path: seq<byte>, size: nat, time: nat, date: nat)
    requires Inv(z) && z.claim.NoClaim?
    requires Allocate(z, path, size, time, date).claim.Claim?
    ensures Partition(Allocate(z, path, size, time, date)) <==> !Wraps(z, path, size)
    ensures !Wraps(z, path, size) ==> Inv(Allocate(z, path, size, time, date))
  {
    var a := Allocate(z, path, size, time, date);
    var n := LocalSize(path, size);
    var h := FindHole(z.entries, n);
    if Wraps(z, path, size) {
      assert Owner(a, a.claim.r.offset + LFH + |path| + size - 1, -1);
      assert Owned(a, a.claim.r.offset + LFH + |path| + size - 1);
    } else if h < |z.entries| {
      CarveKeepsPartition(z, h, n, a.claim);
    } else {
      ExtendKeepsPartition(z, n, a.claim);
    }
  }

  // ----- rollback, commit, removal

  /** Giving the whole claim back. */
  lemma RollbackKeepsInv(z: Zip)
    requires Inv(z) && z.claim.Claim?
    ensures Inv(Rollback(z))
  {
    var r, c := Rollback(z), z.claim;
    if c.hole >= 0 {
      assert forall x :: Owner(r, x, c.hole) <==> Owner(z, x, c.hole) || Owner(z, x, -1);
      assert forall x, i :: i != c.hole && i != -1 ==> (Owner(r, x, i) <==> Owner(z, x, i));
      forall x
        ensures Owned(r, x) <==> Owned(z, x)
      {
        if Owned(z, x) { var i :| Owner(z, x, i); assert Owner(r, x, if i == -1 then c.hole else i); }
      }
    } else {
      RetreatKeepsPartition(z, r, c.cdOld, c.taken);
    }
  }

  lemma RetreatKeepsPartition(z: Zip, r: Zip, cd: nat, n: nat)
    requires Partition(z) && z.claim.Claim? && z.claim.r.offset == cd && z.cdStart == cd + n
    requires LFH + |z.claim.r.name| + z.claim.claimed == n
    requires r == z.(cdStart := cd, claim := NoClaim)
    ensures Partition(r)
  {
    assert forall x, i :: Owner(r, x, i) <==> Owner(z, x, i) && i != -1;
    forall x
      ensures Owned(r, x) <==> 0 <= x < cd
    {
      if 0 <= x < cd {
        assert Owned(z, x);
        var i :| Owner(z, x, i);
        assert Owner(r, x, i);
      }
      if Owned(r, x) {
        var i :| Owner(r, x, i);
        assert Owned(z, x);
        assert x >= cd ==> Owner(z, x, -1);
      }
    }
  }

  /** The claim becomes an entry of `r.size` bytes and the rest goes back whence it came. */
  lemma CommitKeepsInv(z: Zip)
    requires Inv(z) && z.claim.Claim? && z.claim.r.size <= z.claim.claimed
    ensures Inv(Commit(z))
  {
    var r, c, m := Commit(z), z.claim, |z.entries|;
    var dataEnd := c.r.offset + LFH + |c.r.name| + c.r.size;
    assert forall x :: Owner(r, x, m) <==> Owner(z, x, -1) && x < dataEnd;
    if c.hole >= 0 {
      assert forall x :: Owner(r, x, c.hole) <==> Owner(z, x, c.hole) || (Owner(z, x, -1) && x >= dataEnd);
      assert forall x, i :: i != c.hole && i != m && i != -1 ==> (Owner(r, x, i) <==> Owner(z, x, i));
      forall x
        ensures Owned(r, x) <==> Owned(z, x)
      {
        if Owned(z, x) {
          var i :| Owner(z, x, i);
          assert Owner(r, x, i) || Owner(r, x, m) || Owner(r, x, c.hole);
        }
      }
    } else {
      CommitAtEnd(z);
    }
  }

  lemma CommitAtEnd(z: Zip)
    requires Inv(z) && z.claim.Claim? && z.claim.r.size <= z.claim.claimed && z.claim.hole < 0
    ensures Partition(Commit(z)) && Commit(z).cdStart == z.claim.r.offset + LFH + |z.claim.r.name| + z.claim.r.size
  {
    var r, m := Commit(z), |z.entries|;
    assert forall x :: Owner(r, x, m) <==> Owner(z, x, -1) && x < r.cdStart;
    assert forall x, i :: i != m ==> (Owner(r, x, i) <==> Owner(z, x, i) && i != -1);
    forall x
      ensures Owned(r, x) <==> 0 <= x < r.cdStart
    {
      if 0 <= x < r.cdStart {
        assert Owned(z, x);
        var i :| Owner(z, x, i);
        assert Owner(r, x, i) || Owner(r, x, m);
      }
      if Owned(r, x) {
        var i :| Owner(r, x, i);
        assert Owner(z, x, if i == m then -1 else i);
        assert Owned(z, x);
        assert x >= z.claim.r.offset ==> Owner(z, x, -1);
      }
    }
  }

  /** Removing an entry keeps the partition exactly when the entry owns a local header: a
      zero-sized entry has none, sits at offset 0, and would become a hole it never had. */
  lemma RemoveKeepsPartitionIff(z: Zip, i: nat)
    requires Inv(z) && i < |z.entries| && z.entries[i].live
    ensures Partition(Remove(z, i)) <==> z.entries[i].local
    ensures z.entries[i].local ==> Inv(Remove(z, i))
  {
    var r := Remove(z, i);
    if z.entries[i].local {
      assert forall x, j :: Owner(r, x, j) <==> Owner(z, x, j);
      forall x
        ensures Owned(r, x) <==> Owned(z, x)
      {
        if Owned(z, x) { var j :| Owner(z, x, j); assert Owner(r, x, j); }
      }
    } else {
      assert Owner(r, 0, i) && Owned(r, 0);
      if Partition(r) {
        assert Owned(z, 0);
        var j :| Owner(z, 0, j);
        assert Owner(r, 0, j) && j != i;
        assert false;
      }
    }
  }

  /** Both ways out of the partition exist: a claim of 4 GB less one byte, which is taken for
      one of 29 bytes, and a removed zero-sized entry, which becomes a hole at offset 0. */
  lemma PartitionCanBreak()
    ensures !Partition(Allocate(Empty, [], 0xffff_ffff, 0, 0))
    ensures var z := AddZeroSized(Empty, [97], 0, 0, 0x20);
            |z.entries| == 1 && z.entries[0].live && !Partition(Remove(z, 0))
  {
    EmptyInv();
    AllocateKeepsPartitionIff(Empty, [], 0xffff_ffff, 0, 0);
    AddZeroSizedKeepsInv(Empty, [97], 0, 0, 0x20);
    RemoveKeepsPartitionIff(AddZeroSized(Empty, [97], 0, 0, 0x20), 0);
  }

  lemma AddZeroSizedKeepsInv(z: Zip, path: seq<byte>, time: nat, date: nat, attrib: nat)
    requires Inv(z) && |path| > 0
    ensures Inv(AddZeroSized(z, path, time, date, attrib))
  {
    var r := AddZeroSized(z, path, time, date, attrib);
    assert forall x, j :: Owner(r, x, j) <==> Owner(z, x, j);
    forall x
      ensures Owned(r, x) <==> Owned(z, x)
    {
      if Owned(z, x) { var j :| Owner(z, x, j); assert Owner(r, x, j); }
    }
  }
}
