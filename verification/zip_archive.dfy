/** Runs of archive operations: what every sequence of adds, stream writes, commits,
    rollbacks and removals keeps, and what ExtractFile then returns. */
module ZipArchive {
  import opened Bytes
  import opened ZipSpace

  datatype Op =
    | OpBegin(path: seq<byte>, size: nat, time: nat, date: nat, k: nat)
    | OpWrite(w: seq<byte>, k: nat)
    | OpFinalize(commit: bool, k: nat)
    | OpRemove(i: nat)
    | OpZeroSized(path: seq<byte>, time: nat, date: nat, attrib: nat)

  /** What the source asserts of its callers, plus the conditions under which the allocator
      is sound: sums that fit 32 bits, and only entries with data removed. */
  predicate Allowed(z: Zip, op: Op) {
    match op
    case OpBegin(path, size, _, _, k) => z.claim.NoClaim? && k <= |path| && !Wraps(z, path, size)
    case OpWrite(w, k) => z.claim.Claim? && k <= |w| && !WriteWraps(z.claim, |w|)
    case OpFinalize(_, k) =>
      z.claim.Claim? && k <= LFH && z.claim.hole < |z.entries| && z.claim.written <= z.claim.claimed
    case OpRemove(i) => i < |z.entries| && z.entries[i].live && z.entries[i].local
    case OpZeroSized(path, _, _, _) => |path| > 0 && z.claim.NoClaim?
  }

  function Step(z: Zip, crc: seq<byte> -> nat, op: Op): Zip
    requires Allowed(z, op)
  {
    match op
    case OpBegin(path, size, time, date, k) => Begin(z, path, size, time, date, k)
    case OpWrite(w, k) => StreamWrite(z, crc, w, k)
    case OpFinalize(commit, k) => Finalize(z, commit, k)
    case OpRemove(i) => Remove(z, i)
    case OpZeroSized(path, time, date, attrib) => AddZeroSized(z, path, time, date, attrib)
  }

  predicate CanRun(z: Zip, crc: seq<byte> -> nat, ops: seq<Op>)
    decreases |ops|
  {
    ops == [] || (Allowed(z, ops[0]) && CanRun(Step(z, crc, ops[0]), crc, ops[1..]))
  }

  function Run(z: Zip, crc: seq<byte> -> nat, ops: seq<Op>): Zip
    requires CanRun(z, crc, ops)
    decreases |ops|
  {
    if ops == [] then z else Run(Step(z, crc, ops[0]), crc, ops[1..])
  }

  // ----- the partition over whole runs

  /** File bytes and the fields of the record other than its place do not matter to Inv. */
  lemma InvIgnores(z: Zip, y: Zip)
    requires Inv(z) && y == z.(file := y.file, claim := y.claim, modified := y.modified)
    requires z.claim.Claim? && y.claim.Claim?
    requires y.claim == z.claim.(r := y.claim.r, written := y.claim.written, crc := y.claim.crc)
    requires y.claim.r.offset == z.claim.r.offset && |y.claim.r.name| == |z.claim.r.name|
    requires y.claim.written <= y.claim.claimed
    ensures Inv(y)
  {
    assert forall x, i :: Owner(y, x, i) <==> Owner(z, x, i);
    forall x
      ensures Owned(y, x) <==> Owned(z, x)
    {
      if Owned(z, x) { var i :| Owner(z, x, i); assert Owner(y, x, i); }
    }
  }

  lemma BeginKeepsInv(z: Zip, path: seq<byte>, size: nat, time: nat, date: nat, k: nat)
    requires Inv(z) && Allowed(z, OpBegin(path, size, time, date, k))
    ensures Inv(Begin(z, path, size, time, date, k))
  {
    var a := Allocate(z, path, size, time, date);
    if a.claim.Claim? {
      AllocateKeepsPartitionIff(z, path, size, time, date);
      var b := a.(file := WriteAt(a.file, a.claim.r.offset + LFH, path[..k]));
      InvIgnores(a, b);
      if k < |path| { RollbackKeepsInv(b); }
    }
  }

  lemma WriteKeepsInv(z: Zip, crc: seq<byte> -> nat, w: seq<byte>, k: nat)
    requires Inv(z) && Allowed(z, OpWrite(w, k))
    ensures Inv(StreamWrite(z, crc, w, k))
  {
    if z.claim.written + |w| <= z.claim.claimed { InvIgnores(z, StreamWrite(z, crc, w, k)); }
  }

  lemma FinalizeKeepsInv(z: Zip, commit: bool, k: nat)
    requires Inv(z) && Allowed(z, OpFinalize(commit, k))
    ensures Inv(Finalize(z, commit, k))
  {
    var y := z.(claim := z.claim.(r := z.claim.r.(crc := z.claim.crc, size := z.claim.written)));
    InvIgnores(z, y);
    if !commit {
      RollbackKeepsInv(y);
    } else {
      var x := y.(file := WriteAt(y.file, y.claim.r.offset, Lfh(y.claim.r)[..k]));
      InvIgnores(y, x);
      if k == LFH { CommitKeepsInv(x); } else { RollbackKeepsInv(x); }
    }
  }

  lemma StepKeepsInv(z: Zip, crc: seq<byte> -> nat, op: Op)
    requires Inv(z) && Allowed(z, op)
    ensures Inv(Step(z, crc, op))
  {
    match op
    case OpBegin(path, size, time, date, k) => BeginKeepsInv(z, path, size, time, date, k);
    case OpWrite(w, k) => WriteKeepsInv(z, crc, w, k);
    case OpFinalize(commit, k) => FinalizeKeepsInv(z, commit, k);
    case OpRemove(i) => RemoveKeepsPartitionIff(z, i);
    case OpZeroSized(path, time, date, attrib) => AddZeroSizedKeepsInv(z, path, time, date, attrib);
  }

  lemma {:induction false} RunKeepsInv(z: Zip, crc: seq<byte> -> nat, ops: seq<Op>)
    requires Inv(z) && CanRun(z, crc, ops)
    ensures Inv(Run(z, crc, ops))
    decreases |ops|
  {
    if ops != [] {
      StepKeepsInv(z, crc, ops[0]);
      RunKeepsInv(Step(z, crc, ops[0]), crc, ops[1..]);
    }
  }

  lemma {:induction false} RunSplit(z: Zip, crc: seq<byte> -> nat, ops: seq<Op>, more: seq<Op>)
    requires CanRun(z, crc, ops + more)
    ensures CanRun(z, crc, ops) && CanRun(Run(z, crc, ops), crc, more)
    ensures Run(z, crc, ops + more) == Run(Run(z, crc, ops), crc, more)
    decreases |ops|
  {
    hide Step, Allowed;
    if ops == [] {
      assert ops + more == more;
    } else {
      assert (ops + more)[0] == ops[0] && (ops + more)[1..] == ops[1..] + more;
      RunSplit(Step(z, crc, ops[0]), crc, ops[1..], more);
    }
  }

  /** An archive built from empty is exactly tiled by live regions, holes and the claim. */
  lemma BuiltArchivePartitioned(crc: seq<byte> -> nat, ops: seq<Op>)
    requires CanRun(Empty, crc, ops)
    ensures Partition(Run(Empty, crc, ops))
  {
    EmptyInv();
    RunKeepsInv(Empty, crc, ops);
  }

  // ----- no byte outside the claim

  /** `after` is `before` with changes in [lo, hi) only, and does not grow beyond it. */
  predicate ChangedOnly(before: seq<byte>, after: seq<byte>, lo: nat, hi: nat) {
    && |before| <= |after| && (|after| <= |before| || |after| <= hi)
    && forall x :: 0 <= x < |before| && !(lo <= x < hi) ==> after[x] == before[x]
  }

  function ClaimEnd(c: Claim): nat
    requires c.Claim?
  {
    c.r.offset + LFH + |c.r.name| + c.claimed
  }

  lemma WriteChangesOnly(f: seq<byte>, pos: nat, w: seq<byte>, lo: nat, hi: nat)
    requires lo <= pos && pos + |w| <= hi
    ensures ChangedOnly(f, WriteAt(f, pos, w), lo, hi)
  {
  }

  lemma ChangedOnlyTwice(f: seq<byte>, g: seq<byte>, h: seq<byte>, lo: nat, hi: nat)
    requires ChangedOnly(f, g, lo, hi) && ChangedOnly(g, h, lo, hi)
    ensures ChangedOnly(f, h, lo, hi)
  {
  }

  lemma BeginChangesOnly(z: Zip, path: seq<byte>, size: nat, time: nat, date: nat, k: nat)
    requires z.claim.NoClaim? && k <= |path|
    ensures var a := Allocate(z, path, size, time, date);
            var f := Begin(z, path, size, time, date, k).file;
            if a.claim.Claim? then ChangedOnly(z.file, f, a.claim.r.offset, ClaimEnd(a.claim)) else f == z.file
  {
    hide WriteAt, ChangedOnly, Slashed;
    var a := Allocate(z, path, size, time, date);
    if a.claim.Claim? {
      WriteChangesOnly(z.file, a.claim.r.offset + LFH, path[..k], a.claim.r.offset, ClaimEnd(a.claim));
    }
  }

  lemma FinalizeChangesOnly(z: Zip, commit: bool, k: nat)
    requires Allowed(z, OpFinalize(commit, k))
    ensures ChangedOnly(z.file, Finalize(z, commit, k).file, z.claim.r.offset, ClaimEnd(z.claim))
  {
    hide WriteAt, ChangedOnly, Lfh;
    var r := z.claim.r.(crc := z.claim.crc, size := z.claim.written);
    WriteChangesOnly(z.file, r.offset, Lfh(r)[..if commit then k else 0], r.offset, ClaimEnd(z.claim));
    NothingWritten(z.file, r.offset);
  }

  lemma NothingWritten(f: seq<byte>, pos: nat)
    ensures forall w: seq<byte> :: w == [] ==> WriteAt(f, pos, w) == f
  {
  }

  lemma WriteStaysInClaim(z: Zip, crc: seq<byte> -> nat, w: seq<byte>, k: nat)
    requires Allowed(z, OpWrite(w, k))
    ensures ChangedOnly(z.file, StreamWrite(z, crc, w, k).file, z.claim.r.offset, ClaimEnd(z.claim))
  {
    hide WriteAt, ChangedOnly;
    var at := z.claim.r.offset + LFH + |z.claim.r.name| + z.claim.written;
    if z.claim.written + |w| <= z.claim.claimed {
      WriteChangesOnly(z.file, at, w[..k], z.claim.r.offset, ClaimEnd(z.claim));
    } else {
      NothingChanged(z.file, z.claim.r.offset, ClaimEnd(z.claim));
    }
  }

  lemma NothingChanged(f: seq<byte>, lo: nat, hi: nat)
    ensures ChangedOnly(f, f, lo, hi)
  {
  }

  /** Stream writes of `n` bytes stay inside the claim, whatever the bytes, exactly when the
      size test does not wrap. */
  lemma WriteStaysInClaimIff(z: Zip, crc: seq<byte> -> nat, n: nat)
    requires z.claim.Claim? && z.claim.written <= z.claim.claimed < WORD
    ensures !WriteWraps(z.claim, n) <==>
            forall w: seq<byte> :: |w| == n ==>
              ChangedOnly(z.file, StreamWrite(z, crc, w, n).file, z.claim.r.offset, ClaimEnd(z.claim))
  {
    hide ChangedOnly;
    if !WriteWraps(z.claim, n) {
      forall w: seq<byte> | |w| == n
        ensures ChangedOnly(z.file, StreamWrite(z, crc, w, n).file, z.claim.r.offset, ClaimEnd(z.claim))
      {
        WriteStaysInClaim(z, crc, w, n);
      }
    } else {
      var end := ClaimEnd(z.claim);
      var w := Foreign(z.file, end, z.claim.r.offset + LFH + |z.claim.r.name| + z.claim.written, n);
      WriteEscapes(z, crc, w);
    }
  }

  /** Such a size exists as soon as something has been written. */
  lemma SomeWriteWraps(c: Claim)
    requires c.Claim? && 0 < c.written < WORD
    ensures WORD - c.written < WORD && WriteWraps(c, WORD - c.written)
  {
    assert Trunc(c.written + (WORD - c.written)) == 0;
  }

  /** `n` bytes for position `at` that differ from the file at `end`. */
  function Foreign(f: seq<byte>, end: nat, at: nat, n: nat): (w: seq<byte>)
    ensures |w| == n
    ensures at <= end < at + n && end < |f| ==> w[end - at] != f[end]
  {
    seq(n, i => if end < |f| && f[end] == 0 then 1 else 0)
  }

  lemma WriteEscapes(z: Zip, crc: seq<byte> -> nat, w: seq<byte>)
    requires z.claim.Claim? && z.claim.written <= z.claim.claimed < WORD && WriteWraps(z.claim, |w|)
    requires var at := z.claim.r.offset + LFH + |z.claim.r.name| + z.claim.written;
             ClaimEnd(z.claim) < |z.file| ==>
               at <= ClaimEnd(z.claim) < at + |w| ==> w[ClaimEnd(z.claim) - at] != z.file[ClaimEnd(z.claim)]
    ensures !ChangedOnly(z.file, StreamWrite(z, crc, w, |w|).file, z.claim.r.offset, ClaimEnd(z.claim))
  {
    var at, end := z.claim.r.offset + LFH + |z.claim.r.name| + z.claim.written, ClaimEnd(z.claim);
    assert w[..|w|] == w;
    var f := WriteAt(z.file, at, w);
    if end < |z.file| { assert f[end] == w[end - at]; }
  }

  lemma {:induction false} WritesChangeOnly(z: Zip, crc: seq<byte> -> nat, ops: seq<Op>)
    requires z.claim.Claim? && CanRun(z, crc, ops) && AllWrites(ops)
    ensures ChangedOnly(z.file, Run(z, crc, ops).file, z.claim.r.offset, ClaimEnd(z.claim))
    decreases |ops|
  {
    hide WriteAt, ChangedOnly;
    if ops == [] {
      NothingChanged(z.file, z.claim.r.offset, ClaimEnd(z.claim));
    } else {
      var w := ops[0];
      var y := Step(z, crc, w);
      WriteStaysInClaim(z, crc, w.w, w.k);
      WritesChangeOnly(y, crc, ops[1..]);
      ChangedOnlyTwice(z.file, y.file, Run(y, crc, ops[1..]).file, z.claim.r.offset, ClaimEnd(z.claim));
    }
  }

  /** Adding an entry, committed or rolled back, changes no byte outside what it claimed. */
  lemma AddChangesOnlyClaim(z: Zip, crc: seq<byte> -> nat, path: seq<byte>, size: nat, time: nat, date: nat,
                            writes: seq<Op>, commit: bool, k: nat)
    requires z.claim.NoClaim? && Begin(z, path, size, time, date, |path|).claim.Claim?
    requires CanRun(Begin(z, path, size, time, date, |path|), crc, writes) && AllWrites(writes)
    requires Allowed(Run(Begin(z, path, size, time, date, |path|), crc, writes), OpFinalize(commit, k))
    ensures var b := Begin(z, path, size, time, date, |path|);
            var r := Finalize(Run(b, crc, writes), commit, k);
            ChangedOnly(z.file, r.file, b.claim.r.offset, ClaimEnd(b.claim))
  {
    hide WriteAt, ChangedOnly, Finalize, Run, CanRun;
    var b := Begin(z, path, size, time, date, |path|);
    var y := Run(b, crc, writes);
    BeginChangesOnly(z, path, size, time, date, |path|);
    WritesChangeOnly(b, crc, writes);
    WritesKeepAllocation(b, crc, writes);
    FinalizeChangesOnly(y, commit, k);
    ChangedOnlyTwice(z.file, b.file, y.file, b.claim.r.offset, ClaimEnd(b.claim));
    ChangedOnlyTwice(z.file, y.file, Finalize(y, commit, k).file, b.claim.r.offset, ClaimEnd(b.claim));
  }

  // ----- rollback restores

  predicate AllWrites(ops: seq<Op>) { forall i :: 0 <= i < |ops| ==> ops[i].OpWrite? }

  /** Stream writes touch neither the entries nor the allocation of the claim. */
  lemma {:induction false} WritesKeepAllocation(z: Zip, crc: seq<byte> -> nat, ops: seq<Op>)
    requires CanRun(z, crc, ops) && AllWrites(ops) && z.claim.Claim?
    ensures var y := Run(z, crc, ops);
            && y.entries == z.entries && y.cdStart == z.cdStart && y.modified == z.modified && y.claim.Claim?
            && y.claim == z.claim.(written := y.claim.written, crc := y.claim.crc)
    decreases |ops|
  {
    if ops != [] {
      assert ops[0].OpWrite?;
      WritesKeepAllocation(Step(z, crc, ops[0]), crc, ops[1..]);
    }
  }

  /** An add that is rolled back, or whose header cannot be written, leaves entries, holes and
      the end of the data area as they were, whether its claim came from a hole or from the
      end. */
  lemma RollbackRestores(z: Zip, crc: seq<byte> -> nat, path: seq<byte>, size: nat, time: nat, date: nat,
                         writes: seq<Op>, commit: bool, k: nat)
    requires Inv(z) && Allowed(z, OpBegin(path, size, time, date, |path|)) && k <= LFH && (commit ==> k < LFH)
    requires var b := Begin(z, path, size, time, date, |path|);
             b.claim.Claim? && CanRun(b, crc, writes) && AllWrites(writes)
    requires var y := Run(Begin(z, path, size, time, date, |path|), crc, writes); Allowed(y, OpFinalize(commit, k))
    ensures var y := Run(Begin(z, path, size, time, date, |path|), crc, writes);
            var r := Finalize(y, commit, k);
            r.entries == z.entries && r.cdStart == z.cdStart && r.claim == z.claim && r.modified == z.modified
  {
    var b := Begin(z, path, size, time, date, |path|);
    hide WriteAt, Lfh;
    WritesKeepAllocation(b, crc, writes);
    var h := b.claim.hole;
    if h >= 0 { assert Returned(b.entries[h], b.claim.taken) == z.entries[h]; }
  }

  /** An add whose name cannot be written has happened only to the file's free bytes. */
  lemma ShortNameForgotten(z: Zip, path: seq<byte>, size: nat, time: nat, date: nat, k: nat)
    requires Inv(z) && Allowed(z, OpBegin(path, size, time, date, k)) && k < |path|
    ensures Begin(z, path, size, time, date, k) == z.(file := Begin(z, path, size, time, date, k).file)
  {
    hide WriteAt;
    var a := Allocate(z, path, size, time, date);
    if a.claim.Claim? && a.claim.hole >= 0 {
      var h := a.claim.hole;
      assert Returned(a.entries[h], a.claim.taken) == z.entries[h];
      assert a.entries[h := z.entries[h]] == z.entries;
    }
  }

  // ----- bytes

  /** Entry `i` is stored in the file: its local header and its data are in place. */
  predicate Stored(z: Zip, i: nat, data: seq<byte>) {
    && i < |z.entries| && z.entries[i].live && z.entries[i].local
    && var r := z.entries[i].r;
       var at := r.offset + LFH + |r.name|;
       && |data| == r.size && at + r.size <= |z.file|
       && z.file[r.offset..r.offset + LFH] == Lfh(r)
       && z.file[at..at + r.size] == data
  }

  /** Writing inside the claimed region leaves every stored entry alone. */
  lemma ClaimWriteKeepsStored(z: Zip, pos: nat, w: seq<byte>, i: nat, data: seq<byte>)
    requires Inv(z) && z.claim.Claim? && Stored(z, i, data)
    requires z.claim.r.offset <= pos
    requires pos + |w| <= z.claim.r.offset + LFH + |z.claim.r.name| + z.claim.claimed
    ensures Stored(z.(file := WriteAt(z.file, pos, w)), i, data)
  {
    var f := WriteAt(z.file, pos, w);
    var r := z.entries[i].r;
    forall x | r.offset <= x < r.offset + LFH + |r.name| + r.size
      ensures f[x] == z.file[x]
    {
      assert Owner(z, x, i);
      assert pos <= x < pos + |w| ==> Owner(z, x, -1);
    }
    var at := r.offset + LFH + |r.name|;
    assert f[r.offset..r.offset + LFH] == z.file[r.offset..r.offset + LFH];
    assert f[at..at + r.size] == z.file[at..at + r.size];
  }

  lemma StoredFrame(z: Zip, y: Zip, i: nat, data: seq<byte>)
    requires Stored(z, i, data) && y.file == z.file && i < |y.entries| && y.entries[i] == z.entries[i]
    ensures Stored(y, i, data)
  {
  }

  predicate RemovesNot(op: Op, i: nat) { op.OpRemove? ==> op.i != i }

  /** Allocation and its undoing only ever change holes. */
  lemma AllocateKeepsStored(z: Zip, path: seq<byte>, size: nat, time: nat, date: nat, i: nat, data: seq<byte>)
    requires Stored(z, i, data)
    ensures var a := Allocate(z, path, size, time, date);
            && Stored(a, i, data) && i < |a.entries| == |z.entries| && a.entries[i] == z.entries[i]
            && (a.claim != z.claim ==>
                  a.claim.Claim? && a.claim.hole < |a.entries| && (a.claim.hole >= 0 ==> a.claim.hole != i))
  {
    assert i < |z.entries| && z.entries[i].live;
    hide Stored, Slashed;
    StoredFrame(z, Allocate(z, path, size, time, date), i, data);
  }

  lemma RollbackKeepsStored(z: Zip, i: nat, data: seq<byte>)
    requires Stored(z, i, data) && z.claim.Claim? && z.claim.hole < |z.entries|
    requires z.claim.hole >= 0 ==> z.claim.hole != i
    ensures Stored(Rollback(z), i, data) && i < |z.entries| && Rollback(z).entries[i] == z.entries[i]
  {
  }

  lemma BeginKeepsStored(z: Zip, path: seq<byte>, size: nat, time: nat, date: nat, k: nat, i: nat, data: seq<byte>)
    requires Inv(z) && Allowed(z, OpBegin(path, size, time, date, k)) && Stored(z, i, data)
    ensures var r := Begin(z, path, size, time, date, k);
            Stored(r, i, data) && i < |r.entries| && i < |z.entries| && r.entries[i] == z.entries[i]
  {
    hide Stored, Inv, WriteAt, Allocate, Rollback, Wraps;
    var a := Allocate(z, path, size, time, date);
    AllocateKeepsStored(z, path, size, time, date, i, data);
    if a.claim.Claim? {
      AllocateKeepsPartitionIff(z, path, size, time, date);
      AllocateNames(z, path, size, time, date);
      var b := a.(file := WriteAt(a.file, a.claim.r.offset + LFH, path[..k]));
      ClaimWriteKeepsStored(a, a.claim.r.offset + LFH, path[..k], i, data);
      if k < |path| { RollbackKeepsStored(b, i, data); }
    }
  }

  lemma AllocateNames(z: Zip, path: seq<byte>, size: nat, time: nat, date: nat)
    requires z.claim.NoClaim?
    ensures var a := Allocate(z, path, size, time, date); a.claim.Claim? ==> |a.claim.r.name| == |path|
  {
    hide Slashed;
  }

  lemma FinalizeKeepsStored(z: Zip, commit: bool, k: nat, i: nat, data: seq<byte>)
    requires Inv(z) && Allowed(z, OpFinalize(commit, k)) && Stored(z, i, data)
    ensures var r := Finalize(z, commit, k);
            Stored(r, i, data) && i < |r.entries| && r.entries[i] == z.entries[i]
  {
    assert i < |z.entries| && z.entries[i].live;
    assert z.claim.hole >= 0 ==> !z.entries[z.claim.hole].live;
    hide Stored, Inv, WriteAt, Lfh;
    var y := z.(claim := z.claim.(r := z.claim.r.(crc := z.claim.crc, size := z.claim.written)));
    InvIgnores(z, y);
    StoredFrame(z, y, i, data);
    var x := if commit then y.(file := WriteAt(y.file, y.claim.r.offset, Lfh(y.claim.r)[..k])) else y;
    if commit {
      ClaimWriteKeepsStored(y, y.claim.r.offset, Lfh(y.claim.r)[..k], i, data);
    }
    StoredFrame(x, Finalize(z, commit, k), i, data);
  }

  lemma WriteKeepsStored(z: Zip, crc: seq<byte> -> nat, w: seq<byte>, k: nat, i: nat, data: seq<byte>)
    requires Inv(z) && Allowed(z, OpWrite(w, k)) && Stored(z, i, data)
    ensures var r := StreamWrite(z, crc, w, k);
            Stored(r, i, data) && i < |r.entries| && r.entries[i] == z.entries[i]
  {
    hide Stored, Inv, StreamWrite, WriteAt;
    StoredIndex(z, i, data);
    var c := z.claim;
    StreamWriteIs(z, crc, w, k);
    if c.written + |w| <= c.claimed {
      var at := c.r.offset + LFH + |c.r.name| + c.written;
      var y := z.(file := WriteAt(z.file, at, w[..k]));
      ClaimWriteKeepsStored(z, at, w[..k], i, data);
      StoredFrame(y, StreamWrite(z, crc, w, k), i, data);
    }
  }

  lemma StoredIndex(z: Zip, i: nat, data: seq<byte>)
    requires Stored(z, i, data)
    ensures i < |z.entries| && z.entries[i].live
  {
  }

  /** An allowed write is refused, or goes behind what is already there. */
  lemma StreamWriteIs(z: Zip, crc: seq<byte> -> nat, w: seq<byte>, k: nat)
    requires Allowed(z, OpWrite(w, k))
    ensures var c := z.claim;
            StreamWrite(z, crc, w, k) ==
            if c.written + |w| > c.claimed then z
            else z.(file := WriteAt(z.file, c.r.offset + LFH + |c.r.name| + c.written, w[..k]),
                    claim := c.(crc := crc(w), written := if k == |w| then Trunc(c.written + |w|) else c.written))
  {
    hide WriteAt;
  }

  lemma StepKeepsStored(z: Zip, crc: seq<byte> -> nat, op: Op, i: nat, data: seq<byte>)
    requires Inv(z) && Allowed(z, op) && Stored(z, i, data) && RemovesNot(op, i)
    ensures var r := Step(z, crc, op);
            Stored(r, i, data) && i < |r.entries| && r.entries[i] == z.entries[i]
  {
    assert i < |z.entries|;
    hide Stored, Inv, Begin, StreamWrite, Finalize, WriteAt;
    match op
    case OpBegin(path, size, time, date, k) => BeginKeepsStored(z, path, size, time, date, k, i, data);
    case OpWrite(w, k) => WriteKeepsStored(z, crc, w, k, i, data);
    case OpFinalize(commit, k) => FinalizeKeepsStored(z, commit, k, i, data);
    case OpRemove(j) => StoredFrame(z, Remove(z, j), i, data);
    case OpZeroSized(path, time, date, attrib) =>
      StoredFrame(z, AddZeroSized(z, path, time, date, attrib), i, data);
  }

  /** A stored entry survives every later run that does not remove it. */
  lemma {:induction false} RunKeepsStored(z: Zip, crc: seq<byte> -> nat, ops: seq<Op>, i: nat, data: seq<byte>)
    requires Inv(z) && CanRun(z, crc, ops) && Stored(z, i, data)
    requires forall j :: 0 <= j < |ops| ==> RemovesNot(ops[j], i)
    ensures var r := Run(z, crc, ops);
            Stored(r, i, data) && i < |z.entries| && i < |r.entries| && r.entries[i] == z.entries[i]
    decreases |ops|
  {
    if ops != [] {
      StepKeepsInv(z, crc, ops[0]);
      StepKeepsStored(z, crc, ops[0], i, data);
      RunKeepsStored(Step(z, crc, ops[0]), crc, ops[1..], i, data);
    }
  }

  // ----- extraction

  /** ExtractFile of a stored (not deflated) entry into a caller's buffer. When no local
      header is found the buffer is checked as it is. */
  function Extract(z: Zip, crc: seq<byte> -> nat, i: nat, buffer: seq<byte>): Option<seq<byte>>
    requires i < |z.entries|
  {
    var r := z.entries[i].r;
    if r.offset + LFH <= |z.file| && U32(z.file, r.offset) == 0x04034b50 then
      var begin := Trunc(r.offset + U16(z.file, r.offset + 26) + U16(z.file, r.offset + 28) + LFH);
      if U16(z.file, r.offset + 8) != 0 || r.size != r.sizeOriginal || begin + r.size > |z.file| then None
      else Checked(crc, r, z.file[begin..begin + r.size])
    else Checked(crc, r, buffer)
  }

  function Checked(crc: seq<byte> -> nat, r: Rec, data: seq<byte>): Option<seq<byte>> {
    if crc(data) == r.crc then Some(data) else None
  }

  lemma LfhFields(r: Rec)
    requires r.compression < 0x1_0000 && |r.name| < 0x1_0000
    ensures U32(Lfh(r), 0) == 0x04034b50 && U16(Lfh(r), 8) == r.compression
    ensures U16(Lfh(r), 26) == |r.name| && U16(Lfh(r), 28) == 0
  {
    W32Read(0x04034b50);
    W16Read(r.compression);
    W16Read(|r.name|);
    var w := Lfh(r);
    assert w[0..4] == W32(0x04034b50) && w[8..10] == W16(r.compression);
    assert w[26..28] == W16(|r.name|) && w[28..30] == W16(0);
  }

  lemma HeaderRead(f: seq<byte>, off: nat, r: Rec)
    requires off + LFH <= |f| && f[off..off + LFH] == Lfh(r)
    requires r.compression < 0x1_0000 && |r.name| < 0x1_0000
    ensures U32(f, off) == 0x04034b50 && U16(f, off + 8) == r.compression
    ensures U16(f, off + 26) == |r.name| && U16(f, off + 28) == 0
  {
    LfhFields(r);
    var h := f[off..off + LFH];
    assert U32(f, off) == U32(h, 0) && U16(f, off + 8) == U16(h, 8);
    assert U16(f, off + 26) == U16(h, 26) && U16(f, off + 28) == U16(h, 28);
  }

  /** Behind a local header with a name and an extra field of any length the data are found,
      if they are stored plain and their checksum is right; otherwise nothing is returned. */
  lemma ExtractForeign(z: Zip, crc: seq<byte> -> nat, i: nat, packing: nat, name: nat, extra: nat, data: seq<byte>,
                       buffer: seq<byte>)
    requires i < |z.entries|
    requires var r := z.entries[i].r;
             && r.offset + LFH + name + extra + |data| <= |z.file| && r.size == |data|
             && U32(z.file, r.offset) == 0x04034b50 && U16(z.file, r.offset + 8) == packing
             && U16(z.file, r.offset + 26) == name && U16(z.file, r.offset + 28) == extra
             && r.offset + LFH + name + extra < WORD
    requires var at := z.entries[i].r.offset + LFH + name + extra; z.file[at..at + |data|] == data
    ensures var r := z.entries[i].r;
            Extract(z, crc, i, buffer) ==
              if packing == 0 && r.sizeOriginal == |data| && crc(data) == r.crc then Some(data) else None
  {
    hide U16, U32;
  }

  /** Without a local header the caller gets back what was in the buffer, if its checksum is the
      entry's. */
  lemma ExtractWithoutHeader(z: Zip, crc: seq<byte> -> nat, i: nat, buffer: seq<byte>)
    requires i < |z.entries|
    requires var off := z.entries[i].r.offset; off + LFH > |z.file| || z.file[off..off + 4] != [0x50, 0x4b, 3, 4]
    ensures Extract(z, crc, i, buffer).Some? <==> crc(buffer) == z.entries[i].r.crc
    ensures Extract(z, crc, i, buffer).Some? ==> Extract(z, crc, i, buffer).value == buffer
  {
    var off := z.entries[i].r.offset;
    if off + LFH <= |z.file| && U32(z.file, off) == 0x04034b50 { LocalMagic(z.file, off); }
  }

  lemma LocalMagic(f: seq<byte>, off: nat)
    requires off + 4 <= |f| && U32(f, off) == 0x04034b50
    ensures f[off..off + 4] == [0x50, 0x4b, 3, 4]
  {
  }

  /** Exactly when ExtractFile succeeds on a stored entry, and then with its bytes. */
  lemma ExtractStored(z: Zip, crc: seq<byte> -> nat, i: nat, data: seq<byte>, buffer: seq<byte>)
    requires Stored(z, i, data)
    requires var r := z.entries[i].r;
             r.compression == 0 && |r.name| < 0x1_0000 && r.offset + LFH + |r.name| < WORD
    ensures var r := z.entries[i].r;
            Extract(z, crc, i, buffer) ==
              if r.size == r.sizeOriginal && crc(data) == r.crc then Some(data) else None
  {
    hide U16, U32, Lfh;
    HeaderRead(z.file, z.entries[i].r.offset, z.entries[i].r);
  }

  /** What the open claim has received so far. */
  predicate Received(z: Zip, data: seq<byte>) {
    && z.claim.Claim?
    && var at := z.claim.r.offset + LFH + |z.claim.r.name|;
       && |data| == z.claim.written
       && (|z.claim.r.name| + |data| > 0 ==> at + |data| <= |z.file| && z.file[at..at + |data|] == data)
  }

  lemma BeginReceivesNothing(z: Zip, path: seq<byte>, size: nat, time: nat, date: nat)
    requires z.claim.NoClaim?
    ensures var b := Begin(z, path, size, time, date, |path|); b.claim.Claim? ==> Received(b, [])
  {
    var a := Allocate(z, path, size, time, date);
    if a.claim.Claim? { assert path[..|path|] == path; }
  }

  lemma WriteReceives(z: Zip, crc: seq<byte> -> nat, w: seq<byte>, data: seq<byte>)
    requires Received(z, data) && Allowed(z, OpWrite(w, |w|)) && z.claim.written + |w| <= z.claim.claimed
    ensures var y := StreamWrite(z, crc, w, |w|);
            Received(y, data + w) && y.claim == z.claim.(written := |data + w|, crc := crc(w))
  {
    hide StreamWrite, WriteAt, Trunc;
    StreamWriteIs(z, crc, w, |w|);
    assert w[..|w|] == w;
    WrittenBehind(z.file, z.claim.r.offset + LFH + |z.claim.r.name|, data, w);
  }

  lemma WrittenBehind(f: seq<byte>, at: nat, data: seq<byte>, w: seq<byte>)
    requires data != [] ==> at + |data| <= |f| && f[at..at + |data|] == data
    ensures var g := WriteAt(f, at + |data|, w);
            && (data + w != [] ==> at + |data + w| <= |g| && g[at..at + |data + w|] == data + w)
            && (at + |data| <= |f| ==> at + |data + w| <= |g| && g[at..at + |data + w|] == data + w)
  {
    var g := WriteAt(f, at + |data|, w);
    if at + |data + w| <= |g| {
      forall i | 0 <= i < |data + w|
        ensures g[at + i] == (data + w)[i]
      {
        if i < |data| { assert f[at..at + |data|][i] == data[i]; }
      }
    }
  }

  /** A write of which only a part reaches the file is forgotten, but for its checksum. */
  lemma ShortWriteForgotten(z: Zip, crc: seq<byte> -> nat, w: seq<byte>, k: nat, data: seq<byte>)
    requires Received(z, data) && Allowed(z, OpWrite(w, k)) && k < |w|
    ensures var y := StreamWrite(z, crc, w, k);
            Received(y, data) && y.claim.written == z.claim.written && y.entries == z.entries
  {
    hide WriteAt;
    StreamWriteIs(z, crc, w, k);
    BehindKept(z.file, z.claim.r.offset + LFH + |z.claim.r.name|, data, w[..k]);
  }

  lemma BehindKept(f: seq<byte>, at: nat, data: seq<byte>, w: seq<byte>)
    ensures var g := WriteAt(f, at + |data|, w);
            at + |data| <= |f| && f[at..at + |data|] == data ==> at + |data| <= |g| && g[at..at + |data|] == data
  {
  }

  /** Committing turns what was received into a stored entry at the end of the list. */
  lemma CommitStores(z: Zip, data: seq<byte>)
    requires Inv(z) && Received(z, data) && Allowed(z, OpFinalize(true, LFH))
    ensures var y := Finalize(z, true, LFH);
            && Stored(y, |z.entries|, data)
            && y.entries[|z.entries|].r == z.claim.r.(crc := z.claim.crc, size := |data|)
  {
    var r := z.claim.r.(crc := z.claim.crc, size := z.claim.written);
    var y := Finalize(z, true, LFH);
    var f := WriteAt(z.file, r.offset, Lfh(r)[..LFH]);
    var at := r.offset + LFH + |r.name|;
    assert Lfh(r)[..LFH] == Lfh(r);
    assert f[r.offset..r.offset + LFH] == Lfh(r);
    assert f[at..at + r.size] == data;
    assert y.file == f && y.entries[|z.entries|] == Entry(true, true, r);
  }

  /** Adding a file in one piece: claim, write, commit. */
  function Added(z: Zip, crc: seq<byte> -> nat, path: seq<byte>, data: seq<byte>, time: nat, date: nat): Zip
    requires z.claim.NoClaim? && Begin(z, path, |data|, time, date, |path|).claim.Claim?
  {
    Finalize(StreamWrite(Begin(z, path, |data|, time, date, |path|), crc, data, |data|), true, LFH)
  }

  /** The record of an entry that extracts to `data`. */
  predicate Sound(r: Rec, crc: seq<byte> -> nat, data: seq<byte>) {
    && r.compression == 0 && |r.name| < 0x1_0000 && r.offset + LFH + |r.name| < WORD
    && r.size == r.sizeOriginal == |data| && r.crc == crc(data)
  }

  /** The record of an added file tells what it was called and when it was written. */
  predicate Describes(r: Rec, path: seq<byte>, time: nat, date: nat) {
    Spells(r.name, path) && r.time == time && r.date == date && r.attrib == 0x20
  }

  lemma AddedFileStored(z: Zip, crc: seq<byte> -> nat, path: seq<byte>, data: seq<byte>, time: nat, date: nat)
    requires Inv(z) && Allowed(z, OpBegin(path, |data|, time, date, |path|))
    requires Begin(z, path, |data|, time, date, |path|).claim.Claim?
    ensures var y := Added(z, crc, path, data, time, date);
            && Inv(y) && y.modified && Stored(y, |z.entries|, data) && |z.entries| < |y.entries|
            && Sound(y.entries[|z.entries|].r, crc, data) && Describes(y.entries[|z.entries|].r, path, time, date)
  {
    hide Inv, Received, Begin, Stored, WriteAt;
    var b := Begin(z, path, |data|, time, date, |path|);
    BeginKeepsInv(z, path, |data|, time, date, |path|);
    BeginReceivesNothing(z, path, |data|, time, date);
    ClaimFields(z, path, |data|, time, date);
    var m := StreamWrite(b, crc, data, |data|);
    WriteKeepsInv(b, crc, data, |data|);
    WriteReceives(b, crc, data, []);
    assert [] + data == data;
    CommitStores(m, data);
    FinalizeKeepsInv(m, true, LFH);
  }

  /** The file keeps the path as it was given, behind the local header. */
  lemma NameWritten(z: Zip, crc: seq<byte> -> nat, path: seq<byte>, data: seq<byte>, time: nat, date: nat)
    requires Inv(z) && Allowed(z, OpBegin(path, |data|, time, date, |path|))
    requires Begin(z, path, |data|, time, date, |path|).claim.Claim?
    ensures var y := Added(z, crc, path, data, time, date);
            && |z.entries| < |y.entries|
            && var at := y.entries[|z.entries|].r.offset + LFH;
               at + |path| <= |y.file| && y.file[at..at + |path|] == path
  {
    hide Inv, WriteAt, Begin, StreamWrite, Finalize;
    AddedFileStored(z, crc, path, data, time, date);
    ClaimFields(z, path, |data|, time, date);
    BeginNames(z, path, |data|, time, date);
    AddKeepsName(Begin(z, path, |data|, time, date, |path|), crc, path, data);
  }

  /** The path lies where the claim wants its name. */
  predicate Names(f: seq<byte>, at: nat, path: seq<byte>) {
    path != [] ==> at + |path| <= |f| && f[at..at + |path|] == path
  }

  lemma BeginNames(z: Zip, path: seq<byte>, size: nat, time: nat, date: nat)
    requires z.claim.NoClaim? && Begin(z, path, size, time, date, |path|).claim.Claim?
    ensures var b := Begin(z, path, size, time, date, |path|); Names(b.file, b.claim.r.offset + LFH, path)
  {
    hide WriteAt, Allocate;
    assert path[..|path|] == path;
  }

  lemma AddKeepsName(b: Zip, crc: seq<byte> -> nat, path: seq<byte>, data: seq<byte>)
    requires b.claim.Claim? && b.claim.hole < |b.entries| && b.claim.written == 0 && b.claim.claimed == |data| < WORD
    requires |b.claim.r.name| == |path| && Names(b.file, b.claim.r.offset + LFH, path)
    ensures var y, at := Finalize(StreamWrite(b, crc, data, |data|), true, LFH), b.claim.r.offset + LFH;
            && |y.entries| == |b.entries| + 1 && y.entries[|b.entries|].r.offset + LFH == at
            && at + |path| <= |y.file| && y.file[at..at + |path|] == path
  {
    hide WriteAt, Lfh, Names;
    var at := b.claim.r.offset + LFH;
    var m := StreamWrite(b, crc, data, |data|);
    WriteKeepsName(b.file, at, path, at + |path|, data);
    assert data[..|data|] == data;
    var r := m.claim.r.(crc := m.claim.crc, size := m.claim.written);
    WriteKeepsName(m.file, at, path, at - LFH, Lfh(r));
    assert Lfh(r)[..LFH] == Lfh(r);
    var f := Finalize(m, true, LFH).file;
    assert Names(f, at, path) && at <= |f|;
    NamesSlice(f, at, path);
  }

  lemma WriteKeepsName(f: seq<byte>, at: nat, path: seq<byte>, pos: nat, w: seq<byte>)
    requires Names(f, at, path) && (pos >= at + |path| || pos + |w| <= at)
    ensures Names(WriteAt(f, pos, w), at, path)
    ensures |WriteAt(f, pos, w)| >= if w == [] then 0 else pos + |w|
  {
    hide WriteAt;
    var g := WriteAt(f, pos, w);
    if path != [] {
      assert forall x :: at <= x < at + |path| ==> g[x] == f[x];
      assert g[at..at + |path|] == f[at..at + |path|];
    }
  }

  lemma NamesSlice(f: seq<byte>, at: nat, path: seq<byte>)
    requires Names(f, at, path) && at <= |f|
    ensures at + |path| <= |f| && f[at..at + |path|] == path
  {
    assert path == [] ==> f[at..at] == path;
  }

  /** Bytes added in one piece come back unchanged after any later adds, rollbacks and
      removals of other entries. */
  lemma AddedFileExtracts(z: Zip, crc: seq<byte> -> nat, path: seq<byte>, data: seq<byte>, time: nat, date: nat,
                          later: seq<Op>, buffer: seq<byte>)
    requires Inv(z) && Allowed(z, OpBegin(path, |data|, time, date, |path|))
    requires Begin(z, path, |data|, time, date, |path|).claim.Claim?
    requires CanRun(Added(z, crc, path, data, time, date), crc, later)
    requires forall j :: 0 <= j < |later| ==> RemovesNot(later[j], |z.entries|)
    ensures var e := Run(Added(z, crc, path, data, time, date), crc, later);
            && |z.entries| < |e.entries| && Stored(e, |z.entries|, data) && Sound(e.entries[|z.entries|].r, crc, data)
            && Describes(e.entries[|z.entries|].r, path, time, date)
            && Extract(e, crc, |z.entries|, buffer) == Some(data)
  {
    hide Inv, Added, Run, CanRun, Begin, Stored, Extract;
    var y := Added(z, crc, path, data, time, date);
    AddedFileStored(z, crc, path, data, time, date);
    RunKeepsStored(y, crc, later, |z.entries|, data);
    ExtractStored(Run(y, crc, later), crc, |z.entries|, data, buffer);
  }

  lemma ClaimFields(z: Zip, path: seq<byte>, size: nat, time: nat, date: nat)
    requires Inv(z) && Allowed(z, OpBegin(path, size, time, date, |path|))
    requires Begin(z, path, size, time, date, |path|).claim.Claim?
    ensures var b := Begin(z, path, size, time, date, |path|);
            && b.claim.claimed == size && b.claim.written == 0 && |b.entries| == |z.entries|
            && b.claim.hole < |b.entries|
            && b.claim.r.compression == 0 && b.claim.r.sizeOriginal == size
            && |b.claim.r.name| == |path| <= 0xffff && b.claim.r.offset + LFH + |path| + size < WORD
            && Describes(b.claim.r, path, time, date)
  {
    hide Slashed;
    var a := Allocate(z, path, size, time, date);
    AllocateDescribes(z, path, size, time, date);
    AllocateKeepsPartitionIff(z, path, size, time, date);
    var last := a.claim.r.offset + LFH + |path| + size - 1;
    assert Owner(a, last, -1);
    assert Owned(a, last);
  }

  // ----- streamed files

  function Joined(pieces: seq<seq<byte>>): seq<byte> {
    if pieces == [] then [] else Joined(pieces[..|pieces| - 1]) + pieces[|pieces| - 1]
  }

  /** One Write per piece, all of it reaching the file. */
  function Streamed(z: Zip, crc: seq<byte> -> nat, pieces: seq<seq<byte>>): (r: Zip)
    requires z.claim.Claim?
    ensures r.claim.Claim?
  {
    if pieces == [] then z
    else StreamWrite(Streamed(z, crc, pieces[..|pieces| - 1]), crc, pieces[|pieces| - 1], |pieces[|pieces| - 1]|)
  }

  /** Pieces that fit the claim are all received, and the checksum is that of the last. */
  lemma {:induction false} StreamedReceives(z: Zip, crc: seq<byte> -> nat, pieces: seq<seq<byte>>)
    requires Inv(z) && z.claim.Claim? && Received(z, []) && |Joined(pieces)| <= z.claim.claimed < WORD
    ensures var y := Streamed(z, crc, pieces);
            && Inv(y) && Received(y, Joined(pieces)) && y.entries == z.entries
            && y.claim == z.claim.(written := |Joined(pieces)|,
                                   crc := if pieces == [] then z.claim.crc else crc(pieces[|pieces| - 1]))
    decreases |pieces|
  {
    hide Inv, Received, WriteAt;
    if pieces == [] {
      ReceivedNothing(z);
    } else {
      var n := |pieces| - 1;
      StreamedReceives(z, crc, pieces[..n]);
      var m := Streamed(z, crc, pieces[..n]);
      WriteReceives(m, crc, pieces[n], Joined(pieces[..n]));
      WriteKeepsInv(m, crc, pieces[n], |pieces[n]|);
    }
  }

  lemma ReceivedNothing(z: Zip)
    requires Received(z, [])
    ensures z.claim.written == 0
  {
  }

  /** A file streamed in pieces comes back exactly when the pieces fill the claim and the
      checksum of the last piece happens to be that of the whole: each Write restarts it. */
  lemma StreamedFileExtractsIff(z: Zip, crc: seq<byte> -> nat, path: seq<byte>, size: nat, time: nat, date: nat,
                                pieces: seq<seq<byte>>, buffer: seq<byte>)
    requires Inv(z) && Allowed(z, OpBegin(path, size, time, date, |path|)) && 0 < size
    requires Begin(z, path, size, time, date, |path|).claim.Claim? && |Joined(pieces)| <= size
    ensures var b := Begin(z, path, size, time, date, |path|);
            var m := Streamed(b, crc, pieces);
            && Allowed(m, OpFinalize(true, LFH))
            && var y := Finalize(m, true, LFH);
               && |z.entries| < |y.entries|
               && (Extract(y, crc, |z.entries|, buffer) == Some(Joined(pieces)) <==>
                     |Joined(pieces)| == size && crc(Joined(pieces)) == crc(pieces[|pieces| - 1]))
               && (Extract(y, crc, |z.entries|, buffer) in {None, Some(Joined(pieces))})
  {
    hide Inv, Received, Begin, Finalize, Extract, Stored, WriteAt, Streamed;
    var b := Begin(z, path, size, time, date, |path|);
    BeginKeepsInv(z, path, size, time, date, |path|);
    BeginReceivesNothing(z, path, size, time, date);
    ClaimFields(z, path, size, time, date);
    StreamedReceives(b, crc, pieces);
    var m := Streamed(b, crc, pieces);
    CommitStores(m, Joined(pieces));
    ExtractStored(Finalize(m, true, LFH), crc, |z.entries|, Joined(pieces), buffer);
  }

  /** Two bytes streamed one by one do not come back when the checksum tells lengths apart. */
  lemma TwoPiecesLost(buffer: seq<byte>)
    ensures var crc := (s: seq<byte>) => |s|;
            var b := Begin(Empty, [97], 2, 0, 0, 1);
            && b.claim.Claim?
            && var m := Streamed(b, crc, [[1], [2]]);
               && Allowed(m, OpFinalize(true, LFH))
               && var y := Finalize(m, true, LFH);
                  0 < |y.entries| && Extract(y, crc, 0, buffer) == None
  {
    hide Inv, Received, Finalize, Extract, Stored, WriteAt, Streamed;
    var crc := (s: seq<byte>) => |s|;
    var pieces: seq<seq<byte>> := [[1], [2]];
    assert pieces[..1] == [[1]] && pieces[..1][..0] == [];
    assert Joined(pieces[..1]) == [] + [1] && Joined(pieces) == [1] + [2];
    EmptyInv();
    StreamedFileExtractsIff(Empty, crc, [97], 2, 0, 0, pieces, buffer);
  }
}
