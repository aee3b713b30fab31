/** FileZip as the object it is: entries, data-area end and file bytes updated in place,
    with the loops of the original. Every method does to the fields what the
    specification functions of ZipSpace and ZipDirectory say. */
module FileZip {
  import opened Bytes
  import opened ZipSpace
  import opened ZipArchive
  import ZipDirectory

  class Archive {
    var entries: seq<Entry>
    var cdStart: nat
    var modified: bool
    var claim: Claim
    var file: seq<byte>

    function View(): Zip
      reads this
    {
      Zip(entries, cdStart, modified, claim, file)
    }

    constructor ()
      ensures View() == Empty
    {
      entries, cdStart, modified, claim, file := [], 0, false, NoClaim, [];
    }

    /** "Looking for removed place". */
    method FirstHole(n: nat) returns (h: nat)
      ensures h == FindHole(entries, n)
    {
      h := 0;
      while h < |entries| && !IsHole(entries[h], n)
        invariant h <= |entries|
        invariant forall i :: 0 <= i < h ==> !IsHole(entries[i], n)
      {
        h := h + 1;
      }
    }

    method AddBegin(path: seq<byte>, size: nat, time: nat, date: nat, k: nat) returns (ok: bool)
      requires claim.NoClaim? && k <= |path|
      modifies this
      ensures View() == Begin(old(View()), path, size, time, date, k)
      ensures ok <==> claim.Claim?
    {
      hide WriteAt, Slashed, Trunc;
      ok := false;
      if |path| > 0xffff || |entries| >= 0xffff { return; }
      var n := LocalSize(path, size);
      var h := FirstHole(n);
      var offset := cdStart;
      if h < |entries| {
        offset := entries[h].r.offset;
        claim := Claim(Rec(0, time, date, 0, size, size, 0x20, offset, Slashed(path)), size, h, n, cdStart, 0, 0);
        entries := entries[h := Carved(entries[h], n)];
      } else {
        if Trunc(cdStart + n) > SPACE_LIMIT { return; }
        claim := Claim(Rec(0, time, date, 0, size, size, 0x20, offset, Slashed(path)), size, -1, n, cdStart, 0, 0);
        cdStart := Trunc(cdStart + n);
      }
      file := WriteAt(file, offset + LFH, path[..k]);
      if k == |path| { ok := true; } else { RollBack(); }
    }

    method RollBack()
      requires claim.Claim? && claim.hole < |entries|
      modifies this`entries, this`cdStart, this`claim
      ensures View() == Rollback(old(View()))
    {
      if claim.hole >= 0 {
        entries := entries[claim.hole := Returned(entries[claim.hole], claim.taken)];
      } else {
        cdStart := claim.cdOld;
      }
      claim := NoClaim;
    }

    method Write(crc: seq<byte> -> nat, w: seq<byte>, k: nat)
      requires claim.Claim? && k <= |w|
      modifies this`file, this`claim
      ensures View() == StreamWrite(old(View()), crc, w, k)
    {
      if Trunc(claim.written + |w|) <= claim.claimed {
        file := WriteAt(file, claim.r.offset + LFH + |claim.r.name| + claim.written, w[..k]);
        claim := claim.(crc := crc(w));
        if k == |w| { claim := claim.(written := Trunc(claim.written + |w|)); }
      }
    }

    method AddEnd(commit: bool, k: nat) returns (ok: bool)
      requires claim.Claim? && claim.hole < |entries| && claim.written <= claim.claimed && k <= LFH
      modifies this
      ensures View() == Finalize(old(View()), commit, k)
      ensures ok <==> !commit || k == LFH
    {
      claim := claim.(r := claim.r.(crc := claim.crc, size := claim.written));
      ok := true;
      if commit {
        file := WriteAt(file, claim.r.offset, Lfh(claim.r)[..k]);
        if k == LFH {
          var saved := claim.claimed - claim.r.size;
          if claim.hole >= 0 {
            entries := entries[claim.hole := Returned(entries[claim.hole], saved)];
          } else if cdStart >= saved {
            cdStart := cdStart - saved;
          }
          entries := entries + [Entry(true, true, claim.r)];
          modified := true;
          claim := NoClaim;
          return;
        }
        ok := false;
      }
      RollBack();
    }

    method RemoveFile(i: nat)
      requires i < |entries| && entries[i].live
      modifies this`entries
      ensures View() == Remove(old(View()), i)
    {
      var e := entries[i];
      entries := entries[i := e.(live := false, r := e.r.(size := e.r.size + LFH + |e.r.name|))];
    }

    /** Save writes record after record, `room` bytes of which reach the file; the loop's file
        is that of one big write, cut short when a write fails. */
    method SaveDirectory(room: nat) returns (ok: bool)
      modifies this`file, this`modified
      ensures ok <==> old(modified) && |ZipDirectory.Directory(old(View()))| <= room
      ensures ok || !old(modified) ==> View() == ZipDirectory.Save(old(View()))
      ensures !ok && old(modified) ==>
                var w := ZipDirectory.Directory(old(View()));
                room < |w| && View() == old(View()).(file := WriteAt(old(file), cdStart, w[..room]))
    {
      hide WriteAt, ZipDirectory.DirBytes, ZipDirectory.Live, ZipDirectory.DirRecord, ZipDirectory.EndRecord,
        ZipDirectory.Directory;
      if !modified { return false; }
      ghost var z := View();
      ghost var f := file;
      ghost var all := ZipDirectory.DirBytes(ZipDirectory.Live(entries));
      var dir: seq<byte> := [];
      WriteAtNothing(f, cdStart);
      assert entries[0..] == entries && dir + all == all;
      var count := 0;
      var i := 0;
      while i < |entries|
        invariant i <= |entries| && |dir| <= room && modified
        invariant file == WriteAt(f, cdStart, dir)
        invariant all == dir + ZipDirectory.DirBytes(ZipDirectory.Live(entries[i..]))
        invariant |ZipDirectory.Live(entries)| == count + |ZipDirectory.Live(entries[i..])|
      {
        LiveDirBytes(entries, i, dir);
        if entries[i].live {
          var w := ZipDirectory.DirRecord(entries[i].r);
          if |dir| + |w| > room {
            WriteAtTwice(f, cdStart, dir, w[..room - |dir|]);
            file := WriteAt(file, cdStart + |dir|, w[..room - |dir|]);
            PrefixOfDirectory(z, dir + w, ZipDirectory.DirBytes(ZipDirectory.Live(entries[i + 1..])));
            CutIn(ZipDirectory.Directory(z), dir, w, room);
            return false;
          }
          WriteAtTwice(f, cdStart, dir, w);
          file := WriteAt(file, cdStart + |dir|, w);
          dir := dir + w;
          count := count + 1;
        }
        i := i + 1;
      }
      assert entries[i..] == [];
      NothingLive();
      assert dir + [] == dir;
      var last := ZipDirectory.EndRecord(count, |dir|, cdStart);
      var k := if |dir| + |last| > room then room - |dir| else |last|;
      WriteAtTwice(f, cdStart, dir, last[..k]);
      file := WriteAt(file, cdStart + |dir|, last[..k]);
      ok := k == |last|;
      DirectoryIs(z, count, dir);
      if ok {
        assert last[..k] == last;
        modified := false;
      } else {
        CutIn(ZipDirectory.Directory(z), dir, last, room);
      }
    }
  }

  lemma PrefixOfDirectory(z: Zip, part: seq<byte>, rest: seq<byte>)
    requires ZipDirectory.DirBytes(ZipDirectory.Live(z.entries)) == part + rest
    ensures part <= ZipDirectory.Directory(z)
  {
  }

  lemma DirectoryIs(z: Zip, count: nat, dir: seq<byte>)
    requires ZipDirectory.DirBytes(ZipDirectory.Live(z.entries)) == dir && |ZipDirectory.Live(z.entries)| == count
    ensures ZipDirectory.Directory(z) == dir + ZipDirectory.EndRecord(count, |dir|, z.cdStart)
  {
  }

  /** A text cut inside its part `w`. */
  lemma CutIn(all: seq<byte>, dir: seq<byte>, w: seq<byte>, room: nat)
    requires dir + w <= all && |dir| <= room < |dir| + |w|
    ensures room < |all| && all[..room] == dir + w[..room - |dir|]
  {
    assert all[..room] == (dir + w)[..room];
  }

  lemma WriteAtTwice(f: seq<byte>, p: nat, a: seq<byte>, b: seq<byte>)
    ensures WriteAt(WriteAt(f, p, a), p + |a|, b) == WriteAt(f, p, a + b)
  {
    if a == [] {
      assert a + b == b;
    } else if b == [] {
      assert a + b == a;
    } else {
      var l, r := WriteAt(WriteAt(f, p, a), p + |a|, b), WriteAt(f, p, a + b);
      assert |l| == |r|;
      assert forall i :: 0 <= i < |l| ==> l[i] == r[i];
    }
  }

  lemma WriteAtNothing(f: seq<byte>, p: nat)
    ensures WriteAt(f, p, []) == f
  {
  }

  lemma NothingLive()
    ensures ZipDirectory.Live([]) == [] && ZipDirectory.DirBytes([]) == []
  {
  }

  lemma LiveDirBytes(entries: seq<Entry>, i: nat, dir: seq<byte>)
    requires i < |entries|
    ensures var here := if entries[i].live then [entries[i].r] else [];
            ZipDirectory.Live(entries[i..]) == here + ZipDirectory.Live(entries[i + 1..])
    ensures var w := if entries[i].live then ZipDirectory.DirRecord(entries[i].r) else [];
            dir + ZipDirectory.DirBytes(ZipDirectory.Live(entries[i..])) ==
            dir + w + ZipDirectory.DirBytes(ZipDirectory.Live(entries[i + 1..]))
  {
    assert entries[i..][0] == entries[i] && entries[i..][1..] == entries[i + 1..];
    var rest := ZipDirectory.Live(entries[i + 1..]);
    if entries[i].live {
      assert ([entries[i].r] + rest)[1..] == rest;
    } else {
      assert [] + rest == rest;
    }
  }

  /** The loops of Open: backward search for the end record, then the record scan. */
  method OpenFile(f: seq<byte>) returns (found: Option<seq<Rec>>)
    ensures found == ZipDirectory.Open(f)
  {
    hide U16, U32, ZipDirectory.Scan, Trunc;
    if |f| < ZipDirectory.EOCD + 1 { return None; }
    var lo := if |f| > 0xffff + ZipDirectory.EOCD + 1 then |f| - (0xffff + ZipDirectory.EOCD + 1) else 0;
    var p := |f| - 20;
    while p >= lo && !ZipDirectory.EndRecordAt(f, p)
      invariant lo - 1 <= p <= |f| - 20
      invariant ZipDirectory.FindEnd(f, lo, |f| - 20) == ZipDirectory.FindEnd(f, lo, p)
    {
      p := p - 1;
    }
    if p < lo { return None; }
    var size, start := U32(f, p + 12), U32(f, p + 16);
    if U16(f, p + 4) != 0 || U16(f, p + 6) != 0 || U16(f, p + 8) != U16(f, p + 10) || Trunc(size + start) >= |f| {
      return None;
    }
    if start + size > |f| { return Some([]); }
    found := ScanRecords(f[start..start + size], U16(f, p + 10));
  }

  method ScanRecords(pool: seq<byte>, count: nat) returns (found: Option<seq<Rec>>)
    ensures found == ZipDirectory.Scan(pool, 0, count)
  {
    hide ZipDirectory.Scan, ZipDirectory.RecordLength, ZipDirectory.ReadRecord;
    var p: nat, i: nat, records: seq<Rec> := 0, 0, [];
    assert forall rest: seq<Rec> :: [] + rest == rest;
    while i < count
      invariant i <= count
      invariant ZipDirectory.Scan(pool, 0, count) ==
                var rest := ZipDirectory.Scan(pool, p, count - i);
                if rest.None? then None else Some(records + rest.value)
    {
      ZipDirectory.ScanUnfold(pool, p, count - i);
      if !ZipDirectory.RecordAt(pool, p) { return None; }
      ghost var rest := ZipDirectory.Scan(pool, p + ZipDirectory.RecordLength(pool, p), count - i - 1);
      var r := ZipDirectory.ReadRecord(pool, p);
      if rest.Some? { assert records + ([r] + rest.value) == (records + [r]) + rest.value; }
      records := records + [r];
      p := p + ZipDirectory.RecordLength(pool, p);
      i := i + 1;
    }
    ZipDirectory.ScanNothing(pool, p);
    assert records + [] == records;
    found := Some(records);
  }
}
