/** The central directory of FileZip: what Save writes (APPNOTE sections 4.3.12 and
    4.3.16) and what the scan in Open reads back. */
module ZipDirectory {
  import opened Bytes
  import opened ZipSpace
  import opened ZipArchive

  const DIR: nat := 46     // sizeof(FileEntry) - 1
  const EOCD: nat := 22    // sizeof(CentralDirectory) - 1
  const DIR_MAGIC: nat := 0x02014b50
  const EOCD_MAGIC: nat := 0x06054b50

  /** All fields fit their places in the record. */
  predicate InRange(r: Rec) {
    && r.compression < 0x1_0000 && r.time < 0x1_0000 && r.date < 0x1_0000 && |r.name| < 0x1_0000
    && r.crc < WORD && r.size < WORD && r.sizeOriginal < WORD && r.attrib < WORD && r.offset < WORD
  }

  function DirHead(r: Rec): (w: seq<byte>)
    ensures |w| == 28
  {
    W32(DIR_MAGIC) + W16(0x014) + W16(0x000a) + W16(0) + W16(r.compression) + W16(r.time) + W16(r.date)
    + W32(r.crc) + W32(r.size) + W32(r.sizeOriginal)
  }

  /** With the lengths of the extra field and of the comment. */
  function DirTail(r: Rec, extra: nat, comment: nat): (w: seq<byte>)
    ensures |w| == 18
  {
    W16(|r.name|) + W16(extra) + W16(comment) + W16(0) + W16(0) + W32(r.attrib) + W32(r.offset)
  }

  function DirRecord(r: Rec): (w: seq<byte>)
    ensures |w| == DIR + |r.name|
  {
    DirHead(r) + DirTail(r, 0, 0) + r.name
  }

  function EndRecord(count: nat, size: nat, start: nat): (w: seq<byte>)
    ensures |w| == EOCD
  {
    W32(EOCD_MAGIC) + W16(0) + W16(0) + W16(count) + W16(count) + W32(size) + W32(start) + W16(0)
  }

  /** Records of the live entries, in entry order. */
  function Live(entries: seq<Entry>): seq<Rec> {
    if entries == [] then []
    else (if entries[0].live then [entries[0].r] else []) + Live(entries[1..])
  }

  function DirBytes(rs: seq<Rec>): seq<byte> {
    if rs == [] then [] else DirRecord(rs[0]) + DirBytes(rs[1..])
  }

  /** What Save writes: the records and the end record. */
  function Directory(z: Zip): seq<byte> {
    var dir := DirBytes(Live(z.entries));
    dir + EndRecord(|Live(z.entries)|, |dir|, z.cdStart)
  }

  /** Save on an archive with no comment. */
  function Save(z: Zip): Zip {
    if !z.modified then z else z.(file := WriteAt(z.file, z.cdStart, Directory(z)), modified := false)
  }

  // ----- Open

  predicate EndRecordAt(f: seq<byte>, p: nat) {
    p + 20 <= |f| && U32(f, p) == EOCD_MAGIC && U32(f, p + 16) < |f|
  }

  /** The backward search for the end record, from `p` down to `lo`. */
  function FindEnd(f: seq<byte>, lo: nat, p: int): (r: Option<nat>)
    ensures r.Some? ==> lo <= r.value <= p && EndRecordAt(f, r.value)
    ensures forall q :: lo <= q <= p && (r.Some? ==> q > r.value) ==> !EndRecordAt(f, q)
    decreases p
  {
    if p < lo then None
    else if EndRecordAt(f, p) then Some(p)
    else FindEnd(f, lo, p - 1)
  }

  function RecordLength(pool: seq<byte>, p: nat): nat
    requires p + DIR <= |pool|
  {
    DIR + U16(pool, p + 28) + U16(pool, p + 30) + U16(pool, p + 32)
  }

  /** The tests of the scan loop: sizeof(FileEntry) includes one byte of the name. */
  predicate RecordAt(pool: seq<byte>, p: nat) {
    && p + DIR + 1 <= |pool| && U32(pool, p) == DIR_MAGIC
    && p + RecordLength(pool, p) <= |pool|
  }

  function ReadRecord(pool: seq<byte>, p: nat): Rec
    requires RecordAt(pool, p)
  {
    Rec(U16(pool, p + 10), U16(pool, p + 12), U16(pool, p + 14), U32(pool, p + 16), U32(pool, p + 20),
        U32(pool, p + 24), U32(pool, p + 38), U32(pool, p + 42), pool[p + DIR..p + DIR + U16(pool, p + 28)])
  }

  function Scan(pool: seq<byte>, p: nat, count: nat): Option<seq<Rec>>
    decreases count
  {
    if count == 0 then Some([])
    else if !RecordAt(pool, p) then None
    else
      match Scan(pool, p + RecordLength(pool, p), count - 1)
      case None => None
      case Some(rest) => Some([ReadRecord(pool, p)] + rest)
  }

  /** Where the last 65558 bytes of a file start. */
  function SearchStart(length: nat): nat {
    if length > 0xffff + EOCD + 1 then length - (0xffff + EOCD + 1) else 0
  }

  /** Open of an existing file, without sorting: the records found, or failure. */
  function Open(f: seq<byte>): Option<seq<Rec>> {
    if |f| < EOCD + 1 then None
    else
      match FindEnd(f, SearchStart(|f|), |f| - 20)
      case None => None
      case Some(p) =>
        var size, start := U32(f, p + 12), U32(f, p + 16);
        if U16(f, p + 4) != 0 || U16(f, p + 6) != 0 || U16(f, p + 8) != U16(f, p + 10)
           || Trunc(size + start) >= |f| then None
        else if start + size > |f| then Some([])
        else Scan(f[start..start + size], 0, U16(f, p + 10))
  }

  // ----- one record

  lemma HeadFields(r: Rec)
    requires InRange(r)
    ensures var w := DirHead(r);
            && U32(w, 0) == DIR_MAGIC && U16(w, 4) == 0x14 && U16(w, 6) == 0x0a && U16(w, 8) == 0
            && U16(w, 10) == r.compression && U16(w, 12) == r.time
            && U16(w, 14) == r.date && U32(w, 16) == r.crc && U32(w, 20) == r.size && U32(w, 24) == r.sizeOriginal
  {
    W16Read(0x14); W16Read(0x0a); W16Read(0);
    W32Read(DIR_MAGIC); W16Read(r.compression); W16Read(r.time); W16Read(r.date);
    W32Read(r.crc); W32Read(r.size); W32Read(r.sizeOriginal);
    var w := DirHead(r);
    hide W16, W32;
    assert w[4..6] == W16(0x14) && w[6..8] == W16(0x0a) && w[8..10] == W16(0);
    SliceRead16(w, 4); SliceRead16(w, 6); SliceRead16(w, 8);
    assert w[0..4] == W32(DIR_MAGIC) && w[10..12] == W16(r.compression) && w[12..14] == W16(r.time);
    assert w[14..16] == W16(r.date) && w[16..20] == W32(r.crc) && w[20..24] == W32(r.size);
    assert w[24..28] == W32(r.sizeOriginal);
    SliceRead(w, 0); SliceRead(w, 16); SliceRead(w, 20); SliceRead(w, 24);
    SliceRead16(w, 10); SliceRead16(w, 12); SliceRead16(w, 14);
  }

  lemma TailFields(r: Rec, m: nat, c: nat)
    requires InRange(r) && m < 0x1_0000 && c < 0x1_0000
    ensures var w := DirTail(r, m, c);
            && U16(w, 0) == |r.name| && U16(w, 2) == m && U16(w, 4) == c && U16(w, 6) == 0 && U16(w, 8) == 0
            && U32(w, 10) == r.attrib && U32(w, 14) == r.offset
  {
    W16Read(|r.name|); W16Read(0); W16Read(m); W16Read(c); W32Read(r.attrib); W32Read(r.offset);
    var w := DirTail(r, m, c);
    hide W16, W32;
    assert w[6..8] == W16(0) && w[8..10] == W16(0);
    SliceRead16(w, 6); SliceRead16(w, 8);
    assert w[0..2] == W16(|r.name|) && w[2..4] == W16(m) && w[4..6] == W16(c);
    assert w[10..14] == W32(r.attrib) && w[14..18] == W32(r.offset);
    SliceRead16(w, 0); SliceRead16(w, 2); SliceRead16(w, 4);
    SliceRead(w, 10); SliceRead(w, 14);
  }

  /** The local header, field by field (section 4.3.7 of the APPNOTE). */
  lemma LocalFields(r: Rec)
    requires InRange(r)
    ensures var w := Lfh(r);
            && U32(w, 0) == 0x04034b50 && U16(w, 4) == 0x0a && U16(w, 6) == 0 && U16(w, 8) == r.compression
            && U16(w, 10) == r.time && U16(w, 12) == r.date && U32(w, 14) == r.crc && U32(w, 18) == r.size
            && U32(w, 22) == r.sizeOriginal && U16(w, 26) == |r.name| && U16(w, 28) == 0
  {
    hide W16, W32, U16, U32, Lfh;
    W32Read(0x04034b50); W16Read(0x0a); W16Read(0); W16Read(r.compression); W16Read(r.time); W16Read(r.date);
    W32Read(r.crc); W32Read(r.size); W32Read(r.sizeOriginal); W16Read(|r.name|);
    var w := Lfh(r);
    LocalSlices(r);
    SliceRead(w, 0); SliceRead16(w, 4); SliceRead16(w, 6); SliceRead16(w, 8); SliceRead16(w, 10); SliceRead16(w, 12);
    SliceRead(w, 14); SliceRead(w, 18); SliceRead(w, 22); SliceRead16(w, 26); SliceRead16(w, 28);
  }

  lemma LocalSlices(r: Rec)
    ensures var w := Lfh(r);
            && w[0..4] == W32(0x04034b50) && w[4..6] == W16(0x0a) && w[6..8] == W16(0) && w[8..10] == W16(r.compression)
            && w[10..12] == W16(r.time) && w[12..14] == W16(r.date) && w[14..18] == W32(r.crc)
            && w[18..22] == W32(r.size) && w[22..26] == W32(r.sizeOriginal) && w[26..28] == W16(|r.name|)
            && w[28..30] == W16(0)
  {
    hide W16, W32;
    var a := W32(0x04034b50) + W16(0x0a) + W16(0) + W16(r.compression);
    var b := W16(r.time) + W16(r.date) + W32(r.crc);
    var c := W32(r.size) + W32(r.sizeOriginal) + W16(|r.name|) + W16(0);
    var w := Lfh(r);
    assert w == a + b + c;
    assert w[0..10] == a && w[10..18] == b && w[18..30] == c;
    assert w[0..4] == a[0..4] && w[4..6] == a[4..6] && w[6..8] == a[6..8] && w[8..10] == a[8..10];
    assert w[10..12] == b[0..2] && w[12..14] == b[2..4] && w[14..18] == b[4..8];
    assert w[18..22] == c[0..4] && w[22..26] == c[4..8] && w[26..28] == c[8..10] && w[28..30] == c[10..12];
  }

  lemma SliceRead(w: seq<byte>, p: nat)
    requires p + 4 <= |w|
    ensures U32(w[p..p + 4], 0) == U32(w, p)
  {
  }

  lemma SliceRead16(w: seq<byte>, p: nat)
    requires p + 2 <= |w|
    ensures U16(w[p..p + 2], 0) == U16(w, p)
  {
  }

  /** Words of a part are words of the whole. */
  lemma PartRead(w: seq<byte>, a: nat, b: nat, p: nat)
    requires a <= b <= |w| && a + p + 4 <= b
    ensures U32(w[a..b], p) == U32(w, a + p)
  {
  }

  lemma PartRead16(w: seq<byte>, a: nat, b: nat, p: nat)
    requires a <= b <= |w| && a + p + 2 <= b
    ensures U16(w[a..b], p) == U16(w, a + p)
  {
  }

  lemma SliceOfSlice(s: seq<byte>, a: nat, b: nat, c: nat, d: nat)
    requires a <= b <= |s| && c <= d <= b - a
    ensures s[a..b][c..d] == s[a + c..a + d]
  {
    var t := s[a..b];
    forall i | 0 <= i < d - c
      ensures t[c..d][i] == s[a + c..a + d][i]
    {
      assert t[c..d][i] == t[c + i] == s[a + c + i];
    }
  }

  lemma Thirds(a: seq<byte>, b: seq<byte>, c: seq<byte>)
    ensures (a + b + c)[0..|a|] == a
    ensures (a + b + c)[|a|..|a| + |b|] == b
    ensures (a + b + c)[|a| + |b|..|a| + |b| + |c|] == c
  {
  }

  /** Reading back the record at `p` of a directory, with `m` bytes of extra field and `c` bytes
      of comment behind the name; one more byte has to follow its head. */
  lemma ReadListed(pool: seq<byte>, p: nat, r: Rec, m: nat, c: nat)
    requires InRange(r) && m < 0x1_0000 && c < 0x1_0000
    requires p + DIR + |r.name| <= |pool|
    requires pool[p..p + DIR + |r.name|] == DirHead(r) + DirTail(r, m, c) + r.name
    ensures RecordLength(pool, p) == DIR + |r.name| + m + c
    ensures RecordAt(pool, p) <==> p + DIR + 1 <= |pool| && p + DIR + |r.name| + m + c <= |pool|
    ensures RecordAt(pool, p) ==> ReadRecord(pool, p) == r
  {
    hide DirHead, DirTail, U16, U32, InRange;
    HeadFields(r);
    TailFields(r, m, c);
    SliceOfSlice(pool, p, p + DIR + |r.name|, 0, 28);
    SliceOfSlice(pool, p, p + DIR + |r.name|, 28, DIR);
    SliceOfSlice(pool, p, p + DIR + |r.name|, DIR, DIR + |r.name|);
    Thirds(DirHead(r), DirTail(r, m, c), r.name);
    PartRead(pool, p, p + 28, 0); PartRead16(pool, p, p + 28, 10); PartRead16(pool, p, p + 28, 12);
    PartRead16(pool, p, p + 28, 14); PartRead(pool, p, p + 28, 16); PartRead(pool, p, p + 28, 20);
    PartRead(pool, p, p + 28, 24);
    PartRead16(pool, p + 28, p + DIR, 0); PartRead16(pool, p + 28, p + DIR, 2); PartRead16(pool, p + 28, p + DIR, 4);
    PartRead(pool, p + 28, p + DIR, 10); PartRead(pool, p + 28, p + DIR, 14);
  }

  // ----- the whole directory

  predicate AllInRange(rs: seq<Rec>) { forall i :: 0 <= i < |rs| ==> InRange(rs[i]) }

  /** The last record has a name, or there is none. */
  predicate LastNamed(rs: seq<Rec>) { rs != [] ==> |rs[|rs| - 1].name| > 0 }

  /** A record as another archiver may have written it. */
  datatype Listing = Listing(r: Rec, extra: seq<byte>, comment: seq<byte>)

  function Listed(l: Listing): (w: seq<byte>)
    ensures |w| == DIR + |l.r.name| + |l.extra| + |l.comment|
  {
    DirHead(l.r) + DirTail(l.r, |l.extra|, |l.comment|) + l.r.name + l.extra + l.comment
  }

  function ListedBytes(ls: seq<Listing>): seq<byte> {
    if ls == [] then [] else Listed(ls[0]) + ListedBytes(ls[1..])
  }

  function Records(ls: seq<Listing>): (rs: seq<Rec>)
    ensures |rs| == |ls|
  {
    seq(|ls|, i requires 0 <= i < |ls| => ls[i].r)
  }

  predicate Fits(l: Listing) { InRange(l.r) && |l.extra| < 0x1_0000 && |l.comment| < 0x1_0000 }

  predicate AllFit(ls: seq<Listing>) { forall i :: 0 <= i < |ls| ==> Fits(ls[i]) }

  /** Something follows the fixed part of the last record. */
  predicate LastLong(ls: seq<Listing>) { ls != [] ==> |Listed(ls[|ls| - 1])| > DIR }

  lemma ListedSplit(pool: seq<byte>, p: nat, ls: seq<Listing>)
    requires p <= |pool| && pool[p..] == ListedBytes(ls) && ls != []
    ensures var next := p + |Listed(ls[0])|;
            next <= |pool| && pool[p..next] == Listed(ls[0]) && pool[next..] == ListedBytes(ls[1..])
  {
    var next := p + |Listed(ls[0])|;
    hide Listed;
    assert pool[p..next] == pool[p..][..|Listed(ls[0])|];
    assert pool[next..] == pool[p..][|Listed(ls[0])|..];
  }

  /** Scanning a directory returns its records in order, whatever extra fields and comments lie
      between them, unless nothing follows the fixed part of the last one: the scan wants one
      byte there. */
  lemma {:induction false} ScanListed(pool: seq<byte>, p: nat, ls: seq<Listing>)
    requires AllFit(ls) && p <= |pool| && pool[p..] == ListedBytes(ls)
    ensures Scan(pool, p, |ls|) == if LastLong(ls) then Some(Records(ls)) else None
    decreases |ls|
  {
    hide Scan, AllFit, ListedBytes, Listed, ReadRecord, RecordAt, RecordLength, InRange;
    if ls == [] {
      ScanNothing(pool, p);
    } else {
      TailFits(ls);
      var l, rest := ls[0], ls[1..];
      var next := p + |Listed(l)|;
      ListedSplit(pool, p, ls);
      ReadFirst(pool, p, l);
      ScanListed(pool, next, rest);
      ScanUnfold(pool, p, |ls|);
      if rest == [] {
        NothingListed();
      } else {
        SomethingListed(rest);
        assert ls[|ls| - 1] == rest[|rest| - 1];
      }
      assert [l.r] + Records(rest) == Records(ls);
    }
  }

  lemma ReadFirst(pool: seq<byte>, p: nat, l: Listing)
    requires Fits(l) && p + |Listed(l)| <= |pool| && pool[p..p + |Listed(l)|] == Listed(l)
    ensures p + DIR <= |pool| && RecordLength(pool, p) == |Listed(l)|
    ensures RecordAt(pool, p) <==> p + DIR + 1 <= |pool|
    ensures RecordAt(pool, p) ==> ReadRecord(pool, p) == l.r
  {
    hide DirHead, DirTail, ReadRecord, RecordAt, RecordLength, InRange;
    var w := DirHead(l.r) + DirTail(l.r, |l.extra|, |l.comment|) + l.r.name;
    assert Listed(l)[..|w|] == w;
    SliceOfSlice(pool, p, p + |Listed(l)|, 0, |w|);
    ReadListed(pool, p, l.r, |l.extra|, |l.comment|);
  }

  lemma TailFits(ls: seq<Listing>)
    requires AllFit(ls) && ls != []
    ensures Fits(ls[0]) && AllFit(ls[1..])
  {
  }

  lemma NothingListed()
    ensures ListedBytes([]) == []
  {
  }

  lemma SomethingListed(ls: seq<Listing>)
    requires ls != []
    ensures |ListedBytes(ls)| >= DIR
  {
  }

  /** What Save writes has neither extra fields nor comments. */
  function Bare(rs: seq<Rec>): (ls: seq<Listing>)
    ensures |ls| == |rs|
  {
    seq(|rs|, i requires 0 <= i < |rs| => Listing(rs[i], [], []))
  }

  lemma {:induction false} BareBytes(rs: seq<Rec>)
    ensures DirBytes(rs) == ListedBytes(Bare(rs))
  {
    if rs != [] {
      hide DirHead, DirTail;
      BareBytes(rs[1..]);
      assert Bare(rs)[1..] == Bare(rs[1..]);
      var w := DirRecord(rs[0]);
      assert Listed(Bare(rs)[0]) == w + [] + [] == w;
    }
  }

  /** Scanning what Save wrote returns the records, unless the last one has an empty name:
      the scan wants one name byte after every fixed part. */
  lemma ScanWritten(pool: seq<byte>, p: nat, rs: seq<Rec>)
    requires AllInRange(rs) && p <= |pool| && pool[p..] == DirBytes(rs)
    ensures Scan(pool, p, |rs|) == if LastNamed(rs) then Some(rs) else None
  {
    hide Scan, InRange, DirBytes, ListedBytes;
    BareBytes(rs);
    var ls := Bare(rs);
    ScanListed(pool, p, ls);
    assert Records(ls) == rs;
  }

  lemma ScanUnfold(pool: seq<byte>, p: nat, count: nat)
    requires count > 0
    ensures !RecordAt(pool, p) ==> Scan(pool, p, count) == None
    ensures RecordAt(pool, p) ==>
              var rest := Scan(pool, p + RecordLength(pool, p), count - 1);
              Scan(pool, p, count) == if rest.None? then None else Some([ReadRecord(pool, p)] + rest.value)
  {
  }

  lemma ScanNothing(pool: seq<byte>, p: nat)
    ensures Scan(pool, p, 0) == Some([])
  {
  }

  lemma DirBytesNonEmpty(rs: seq<Rec>)
    requires rs != []
    ensures |DirBytes(rs)| >= DIR
  {
  }

  lemma EndFields(count: nat, size: nat, start: nat)
    requires count < 0x1_0000 && size < WORD && start < WORD
    ensures var w := EndRecord(count, size, start);
            && U32(w, 0) == EOCD_MAGIC && U16(w, 4) == 0 && U16(w, 6) == 0 && U16(w, 8) == count
            && U16(w, 10) == count && U32(w, 12) == size && U32(w, 16) == start && U16(w, 20) == 0
            && U32(w, 1) != EOCD_MAGIC && U32(w, 2) != EOCD_MAGIC
  {
    hide W16, W32, EndRecord, U16, U32;
    W32Read(EOCD_MAGIC); W16Read(0); W16Read(count); W32Read(size); W32Read(start);
    var w := EndRecord(count, size, start);
    EndSlices(count, size, start);
    EndNotShifted(count, size, start);
    SliceRead(w, 0); SliceRead16(w, 4); SliceRead16(w, 6); SliceRead16(w, 8); SliceRead16(w, 10);
    SliceRead(w, 12); SliceRead(w, 16); SliceRead16(w, 20);
  }

  lemma EndSlices(count: nat, size: nat, start: nat)
    ensures var w := EndRecord(count, size, start);
            && w[0..4] == W32(EOCD_MAGIC) && w[4..6] == W16(0) && w[6..8] == W16(0) && w[8..10] == W16(count)
            && w[10..12] == W16(count) && w[12..16] == W32(size) && w[16..20] == W32(start) && w[20..22] == W16(0)
  {
    hide W16, W32;
    var a, b, c := W32(EOCD_MAGIC) + W16(0) + W16(0), W16(count) + W16(count) + W32(size), W32(start) + W16(0);
    var w := EndRecord(count, size, start);
    assert w == a + b + c;
    assert w[0..8] == a && w[8..16] == b && w[16..22] == c;
    assert w[0..4] == a[0..4] && w[4..6] == a[4..6] && w[6..8] == a[6..8];
    assert w[8..10] == b[0..2] && w[10..12] == b[2..4] && w[12..16] == b[4..8] && w[16..20] == c[0..4];
    assert w[20..22] == c[4..6];
  }

  /** Low bytes come first. */
  lemma LowByteFirst(count: nat, size: nat, start: nat)
    requires count < 0x1_0000 && size < WORD && start < WORD
    ensures var w := EndRecord(count, size, start);
            && w[..4] == [0x50, 0x4b, 5, 6] && w[10] as int == count % 256 && w[11] as int == count / 256
            && w[12] as int == size % 256 && w[15] as int == size / 0x100_0000
  {
    hide EndRecord;
    var w := EndRecord(count, size, start);
    EndSlices(count, size, start);
    MagicBytes();
    assert w[10] == w[10..12][0] && w[11] == w[10..12][1] && w[12] == w[12..16][0] && w[15] == w[12..16][3];
  }

  /** The magic number does not overlap itself. */
  lemma EndNotShifted(count: nat, size: nat, start: nat)
    ensures var w := EndRecord(count, size, start); U32(w, 1) != EOCD_MAGIC && U32(w, 2) != EOCD_MAGIC
  {
    hide W16, W32, EndRecord, U16, U32;
    var w := EndRecord(count, size, start);
    EndSlices(count, size, start);
    MagicBytes();
    assert w[1] == w[0..4][1] && w[2] == w[0..4][2];
    U32Low(w, 1);
    U32Low(w, 2);
  }

  lemma MagicBytes()
    ensures W32(EOCD_MAGIC) == [0x50, 0x4b, 0x05, 0x06] && EOCD_MAGIC % 256 == 0x50
  {
  }

  /** Nothing behind the end record at `e` looks like another one, and the search of Open gets
      as far back as `e`. Within the record itself nothing does, up to its third byte. */
  predicate Quiet(f: seq<byte>, e: nat) {
    |f| <= e + EOCD + 0x1_0000 && forall q :: e + 2 < q <= |f| - 20 ==> !EndRecordAt(f, q)
  }

  /** The backward search stops at the end record just written. */
  lemma EndFound(f: seq<byte>, e: nat, count: nat, size: nat, start: nat)
    requires 0 < e && e + EOCD <= |f| && f[e..e + EOCD] == EndRecord(count, size, start) && Quiet(f, e)
    requires count < 0x1_0000 && size < WORD && start < WORD && start < |f|
    ensures FindEnd(f, SearchStart(|f|), |f| - 20) == Some(e)
  {
    hide EndRecord, EndRecordAt, U32, U16, FindEnd, Quiet, SearchStart;
    EndHere(f, e, count, size, start);
    QuietBehind(f, e);
    OnlyEnd(f, SearchStart(|f|), |f| - 20, e);
  }

  lemma QuietBehind(f: seq<byte>, e: nat)
    requires Quiet(f, e) && !EndRecordAt(f, e + 1) && !EndRecordAt(f, e + 2)
    ensures SearchStart(|f|) <= e && forall q :: e < q <= |f| - 20 ==> !EndRecordAt(f, q)
  {
    hide EndRecordAt;
    forall q | e < q <= |f| - 20
      ensures !EndRecordAt(f, q)
    {
      assert q == e + 1 || q == e + 2 || e + 2 < q;
    }
  }

  lemma EndHere(f: seq<byte>, e: nat, count: nat, size: nat, start: nat)
    requires e + EOCD <= |f| && f[e..e + EOCD] == EndRecord(count, size, start)
    requires count < 0x1_0000 && size < WORD && start < WORD && start < |f|
    ensures EndRecordAt(f, e) && !EndRecordAt(f, e + 1) && !EndRecordAt(f, e + 2)
  {
    hide EndRecord, U32, U16;
    EndFields(count, size, start);
    PartRead(f, e, e + EOCD, 0); PartRead(f, e, e + EOCD, 1); PartRead(f, e, e + EOCD, 2);
    PartRead(f, e, e + EOCD, 16);
  }

  lemma {:induction false} OnlyEnd(f: seq<byte>, lo: nat, p: int, e: nat)
    requires lo <= e <= p && EndRecordAt(f, e) && forall q :: e < q <= p ==> !EndRecordAt(f, q)
    ensures FindEnd(f, lo, p) == Some(e)
    decreases p
  {
    hide EndRecordAt;
    if p > e { OnlyEnd(f, lo, p - 1, e); }
  }

  lemma FileSplit(f: seq<byte>, start: nat, dir: seq<byte>, end: seq<byte>)
    requires start + |dir| + |end| <= |f| && f[start..start + |dir| + |end|] == dir + end
    ensures f[start + |dir|..start + |dir| + |end|] == end && f[start..start + |dir|] == dir
  {
    var w := f[start..start + |dir| + |end|];
    assert f[start + |dir|..start + |dir| + |end|] == w[|dir|..];
    assert f[start..start + |dir|] == w[..|dir|];
  }

  /** A file with a directory written by Save, and nothing like an end record behind it, opens
      to the same live records, in order, exactly when the last of them has a name. */
  lemma OpenWritten(f: seq<byte>, start: nat, rs: seq<Rec>)
    requires AllInRange(rs) && |rs| < 0x1_0000 && |f| < WORD
    requires var e := start + |DirBytes(rs)|;
             && 0 < e && e + EOCD <= |f| && Quiet(f, e)
             && f[start..e + EOCD] == DirBytes(rs) + EndRecord(|rs|, |DirBytes(rs)|, start)
    ensures Open(f) == if LastNamed(rs) then Some(rs) else None
  {
    hide DirBytes, EndRecord, U16, U32, FindEnd, Scan, AllInRange, Quiet;
    var dir := DirBytes(rs);
    var e := start + |dir|;
    FileSplit(f, start, dir, EndRecord(|rs|, |dir|, start));
    EndFound(f, e, |rs|, |dir|, start);
    EndFields(|rs|, |dir|, start);
    var d := e + EOCD;
    PartRead16(f, e, d, 4); PartRead16(f, e, d, 6); PartRead16(f, e, d, 8); PartRead16(f, e, d, 10);
    PartRead(f, e, d, 12); PartRead(f, e, d, 16);
    var pool := f[start..start + |dir|];
    assert pool[0..] == dir;
    ScanWritten(pool, 0, rs);
  }

  /** What a file opens to, from the last end record near its end: disk numbers must be 0 and
      both counts the same; a directory inside the file is scanned, one outside it refused. A
      directory that ends past the range of UINT is either refused or taken for empty. */
  lemma OpenByEndRecord(f: seq<byte>, p: nat)
    requires EOCD < |f| < WORD && SearchStart(|f|) <= p <= |f| - 20 && EndRecordAt(f, p)
    requires forall q :: p < q <= |f| - 20 ==> !EndRecordAt(f, q)
    ensures var size, start, count := U32(f, p + 12), U32(f, p + 16), U16(f, p + 10);
            Open(f) ==
              if U16(f, p + 4) != 0 || U16(f, p + 6) != 0 || U16(f, p + 8) != count then None
              else if start + size < |f| then Scan(f[start..start + size], 0, count)
              else if WORD <= start + size < WORD + |f| then Some([])
              else None
  {
    hide FindEnd, Scan, U16, U32, EndRecordAt;
    OnlyEnd(f, SearchStart(|f|), |f| - 20, p);
  }

  /** Saving a second time changes nothing. */
  lemma SavedOnce(z: Zip)
    ensures !Save(z).modified && Save(Save(z)) == Save(z) && Save(z).entries == z.entries
  {
  }

  /** Save then Open, also when the file goes on behind the new directory, as long as nothing
      there looks like an end record. */
  lemma SaveThenOpen(z: Zip)
    requires z.modified && AllInRange(Live(z.entries)) && |Live(z.entries)| < 0x1_0000
    requires 0 < z.cdStart + |DirBytes(Live(z.entries))| && |Save(z).file| < WORD
    requires Quiet(Save(z).file, z.cdStart + |DirBytes(Live(z.entries))|)
    ensures Open(Save(z).file) == if LastNamed(Live(z.entries)) then Some(Live(z.entries)) else None
  {
    hide DirBytes, EndRecord, Live, Quiet, Open;
    var rs := Live(z.entries);
    var w := DirBytes(rs) + EndRecord(|rs|, |DirBytes(rs)|, z.cdStart);
    var f := Save(z).file;
    assert f == WriteAt(z.file, z.cdStart, w);
    assert f[z.cdStart..z.cdStart + |w|] == w;
    OpenWritten(f, z.cdStart, rs);
  }

  /** A file that does not extend past the new directory is quiet. */
  lemma QuietAtEnd(z: Zip)
    requires z.modified && |z.file| <= z.cdStart + |DirBytes(Live(z.entries))| + EOCD
    ensures Quiet(Save(z).file, z.cdStart + |DirBytes(Live(z.entries))|)
    ensures |Save(z).file| == z.cdStart + |DirBytes(Live(z.entries))| + EOCD
  {
    hide DirBytes, EndRecord, Live, EndRecordAt;
    var rs := Live(z.entries);
    var w := DirBytes(rs) + EndRecord(|rs|, |DirBytes(rs)|, z.cdStart);
    assert Save(z).file == WriteAt(z.file, z.cdStart, w);
  }

  /** Saving touches no stored entry. */
  lemma SaveKeepsStored(z: Zip, i: nat, data: seq<byte>)
    requires Inv(z) && Stored(z, i, data)
    ensures Stored(Save(z), i, data)
  {
    hide Directory, Lfh;
    var r := z.entries[i].r;
    var f := Save(z).file;
    forall x | r.offset <= x < r.offset + LFH + |r.name| + r.size
      ensures f[x] == z.file[x]
    {
      assert Owner(z, x, i);
      assert Owned(z, x);
    }
    var at := r.offset + LFH + |r.name|;
    assert f[r.offset..r.offset + LFH] == z.file[r.offset..r.offset + LFH];
    assert f[at..at + r.size] == z.file[at..at + r.size];
  }

  // ----- from an empty archive through Save and Open

  /** Inputs that fit the fields they are stored in. */
  predicate Tidy(op: Op) {
    && (op.OpBegin? ==> op.time < 0x1_0000 && op.date < 0x1_0000)
    && (op.OpZeroSized? ==> op.time < 0x1_0000 && op.date < 0x1_0000 && op.attrib < WORD && |op.path| < 0xffff)
  }

  predicate AllTidy(ops: seq<Op>) { forall i :: 0 <= i < |ops| ==> Tidy(ops[i]) }

  ghost predicate Sums(crc: seq<byte> -> nat) { forall s :: crc(s) < WORD }

  /** Live records and the record being added fit their fields, and so does their number. */
  predicate RangeInv(z: Zip) {
    && |z.entries| <= 0xffff && (forall i :: 0 <= i < |z.entries| && z.entries[i].live ==> InRange(z.entries[i].r))
    && (z.claim.Claim? ==> |z.entries| < 0xffff && InRange(z.claim.r) && z.claim.crc < WORD && z.claim.claimed < WORD)
  }

  lemma BeginInRange(z: Zip, path: seq<byte>, size: nat, time: nat, date: nat, k: nat)
    requires Inv(z) && RangeInv(z) && Allowed(z, OpBegin(path, size, time, date, k))
    requires time < 0x1_0000 && date < 0x1_0000
    ensures RangeInv(Begin(z, path, size, time, date, k))
  {
    hide Inv, Partition, WriteAt, Slashed;
    var a := Allocate(z, path, size, time, date);
    if a.claim.Claim? {
      BeginWhole(z, path, size, time, date);
      ClaimFields(z, path, size, time, date);
    }
  }

  lemma BeginWhole(z: Zip, path: seq<byte>, size: nat, time: nat, date: nat)
    requires z.claim.NoClaim?
    ensures Begin(z, path, size, time, date, |path|).claim == Allocate(z, path, size, time, date).claim
  {
  }

  lemma StepInRange(z: Zip, crc: seq<byte> -> nat, op: Op)
    requires Inv(z) && RangeInv(z) && Allowed(z, op) && Tidy(op) && Sums(crc)
    ensures RangeInv(Step(z, crc, op))
  {
    hide Partition, WriteAt, Slashed, Lfh;
    match op {
      case OpBegin(path, size, time, date, k) => BeginInRange(z, path, size, time, date, k);
      case OpWrite(w, k) => assert crc(w) < WORD;
      case OpFinalize(commit, k) => FinalizeInRange(z, commit, k);
      case OpRemove(i) =>
      case OpZeroSized(path, time, date, attrib) =>
    }
  }

  lemma FinalizeInRange(z: Zip, commit: bool, k: nat)
    requires Inv(z) && RangeInv(z) && Allowed(z, OpFinalize(commit, k))
    ensures RangeInv(Finalize(z, commit, k))
  {
    hide Partition, WriteAt, Lfh;
    var y := Finalize(z, commit, k);
    assert z.claim.hole >= 0 ==> !z.entries[z.claim.hole].live;
    forall i | 0 <= i < |y.entries| && y.entries[i].live
      ensures InRange(y.entries[i].r)
    {
      if i < |z.entries| { assert y.entries[i] == z.entries[i]; }
    }
  }

  lemma {:induction false} RunInRange(z: Zip, crc: seq<byte> -> nat, ops: seq<Op>)
    requires Inv(z) && RangeInv(z) && CanRun(z, crc, ops) && AllTidy(ops) && Sums(crc)
    ensures RangeInv(Run(z, crc, ops))
    decreases |ops|
  {
    hide Inv, RangeInv, Tidy, Sums, Step, Allowed;
    if ops != [] {
      assert Tidy(ops[0]);
      StepInRange(z, crc, ops[0]);
      StepKeepsInv(z, crc, ops[0]);
      RunInRange(Step(z, crc, ops[0]), crc, ops[1..]);
    }
  }

  lemma {:induction false} LiveInRange(entries: seq<Entry>)
    requires forall i :: 0 <= i < |entries| && entries[i].live ==> InRange(entries[i].r)
    ensures AllInRange(Live(entries)) && |Live(entries)| <= |entries|
  {
    hide InRange;
    if entries != [] { LiveInRange(entries[1..]); }
  }

  /** A removed entry is gone from the directory, and no other one is. */
  lemma RemovedNotListed(z: Zip, i: nat)
    requires i < |z.entries| && z.entries[i].live
    ensures Live(Remove(z, i).entries) == Live(z.entries[..i]) + Live(z.entries[i + 1..])
    ensures Live(z.entries) == Live(z.entries[..i]) + [z.entries[i].r] + Live(z.entries[i + 1..])
  {
    hide Live;
    var es, rs := z.entries, Remove(z, i).entries;
    assert es == es[..i] + ([es[i]] + es[i + 1..]) && rs == es[..i] + ([rs[i]] + es[i + 1..]);
    LiveConcat(es[..i], [es[i]] + es[i + 1..]);
    LiveConcat(es[..i], [rs[i]] + es[i + 1..]);
    LiveFirst(es[i], es[i + 1..]);
    LiveFirst(rs[i], es[i + 1..]);
  }

  lemma LiveNone()
    ensures Live([]) == []
  {
  }

  lemma LiveFirst(e: Entry, rest: seq<Entry>)
    ensures Live([e] + rest) == (if e.live then [e.r] else []) + Live(rest)
  {
    assert ([e] + rest)[1..] == rest;
  }

  lemma {:induction false} LiveConcat(a: seq<Entry>, b: seq<Entry>)
    ensures Live(a + b) == Live(a) + Live(b)
  {
    hide Live;
    if a == [] {
      assert a + b == b;
      LiveNone();
    } else {
      LiveConcat(a[1..], b);
      LiveFirst(a[0], a[1..]);
      LiveFirst(a[0], a[1..] + b);
      assert a + b == [a[0]] + (a[1..] + b) && a == [a[0]] + a[1..];
    }
  }

  /** Where entry `i` is found among the live ones. */
  function LiveIndex(entries: seq<Entry>, i: nat): nat
    requires i <= |entries|
  {
    if i == 0 then 0 else (if entries[0].live then 1 else 0) + LiveIndex(entries[1..], i - 1)
  }

  lemma {:induction false} LiveAt(entries: seq<Entry>, i: nat)
    requires i < |entries| && entries[i].live
    ensures LiveIndex(entries, i) < |Live(entries)| && Live(entries)[LiveIndex(entries, i)] == entries[i].r
  {
    if i > 0 { LiveAt(entries[1..], i - 1); }
  }

  /** The archive that Open makes of a file. */
  function Reopened(f: seq<byte>, rs: seq<Rec>): (z: Zip)
    ensures |z.entries| == |rs|
  {
    Zip(seq(|rs|, i requires 0 <= i < |rs| => Entry(true, true, rs[i])), 0, false, NoClaim, f)
  }

  /** What is stored comes back from the saved and reopened archive. */
  lemma StoredSurvivesReopen(z: Zip, crc: seq<byte> -> nat, i: nat, data: seq<byte>, buffer: seq<byte>)
    requires Inv(z) && Stored(z, i, data) && i < |z.entries| && Sound(z.entries[i].r, crc, data)
    ensures var j, rs := LiveIndex(z.entries, i), Live(z.entries);
            j < |rs| && rs[j] == z.entries[i].r && Extract(Reopened(Save(z).file, rs), crc, j, buffer) == Some(data)
  {
    hide Inv, Extract, Save, Live, Lfh;
    SaveKeepsStored(z, i, data);
    SaveKeepsEntries(z);
    LiveAt(z.entries, i);
    var j, rs := LiveIndex(z.entries, i), Live(z.entries);
    var o := Reopened(Save(z).file, rs);
    assert Stored(o, j, data);
    ExtractStored(o, crc, j, data, buffer);
  }

  lemma SaveKeepsEntries(z: Zip)
    ensures Save(z).entries == z.entries
  {
  }

  /** The operations that add a file in one piece. */
  function Adding(path: seq<byte>, data: seq<byte>, time: nat, date: nat): seq<Op> {
    [OpBegin(path, |data|, time, date, |path|), OpWrite(data, |data|), OpFinalize(true, LFH)]
  }

  lemma AddingAdds(z: Zip, crc: seq<byte> -> nat, path: seq<byte>, data: seq<byte>, time: nat, date: nat)
    requires CanRun(z, crc, Adding(path, data, time, date))
    ensures Allowed(z, OpBegin(path, |data|, time, date, |path|))
    ensures Begin(z, path, |data|, time, date, |path|).claim.Claim?
    ensures Run(z, crc, Adding(path, data, time, date)) == Added(z, crc, path, data, time, date)
  {
    hide Begin, StreamWrite, Finalize;
    var ops := Adding(path, data, time, date);
    var b := Begin(z, path, |data|, time, date, |path|);
    var rest := ops[1..];
    assert Step(z, crc, ops[0]) == b && rest[0] == ops[1] && rest[1..][0] == ops[2] && rest[1..][1..] == [];
    assert CanRun(b, crc, rest) && Run(z, crc, ops) == Run(b, crc, rest);
    var m := StreamWrite(b, crc, data, |data|);
    assert CanRun(m, crc, rest[1..]) && Run(b, crc, rest) == Run(m, crc, rest[1..]);
    assert Run(m, crc, rest[1..]) == Finalize(m, true, LFH);
  }

  lemma AddingRuns(z: Zip, crc: seq<byte> -> nat, path: seq<byte>, data: seq<byte>, time: nat, date: nat)
    requires Allowed(z, OpBegin(path, |data|, time, date, |path|))
    requires var b := Begin(z, path, |data|, time, date, |path|);
             && b.claim.Claim? && Allowed(b, OpWrite(data, |data|))
             && Allowed(StreamWrite(b, crc, data, |data|), OpFinalize(true, LFH))
    ensures CanRun(z, crc, Adding(path, data, time, date))
    ensures Run(z, crc, Adding(path, data, time, date)) == Added(z, crc, path, data, time, date)
  {
    hide Begin, StreamWrite, Finalize;
    var ops := Adding(path, data, time, date);
    var rest := ops[1..];
    assert rest[0] == ops[1] && rest[1..][0] == ops[2] && rest[1..][1..] == [];
    var b := Begin(z, path, |data|, time, date, |path|);
    var m := StreamWrite(b, crc, data, |data|);
    assert CanRun(m, crc, rest[1..]) && Run(m, crc, rest[1..]) == Finalize(m, true, LFH);
    assert CanRun(b, crc, rest) && Run(b, crc, rest) == Run(m, crc, rest[1..]);
  }

  lemma {:induction false} RunKeepsModified(z: Zip, crc: seq<byte> -> nat, ops: seq<Op>)
    requires CanRun(z, crc, ops) && z.modified
    ensures Run(z, crc, ops).modified
    decreases |ops|
  {
    if ops != [] { RunKeepsModified(Step(z, crc, ops[0]), crc, ops[1..]); }
  }

  /** Everything known of the archive after `earlier`, an added file and `later`. */
  lemma BuiltArchive(crc: seq<byte> -> nat, earlier: seq<Op>, path: seq<byte>, data: seq<byte>, time: nat, date: nat,
                     later: seq<Op>, buffer: seq<byte>)
    requires CanRun(Empty, crc, earlier + Adding(path, data, time, date) + later) && CanRun(Empty, crc, earlier)
    requires forall j :: 0 <= j < |later| ==> RemovesNot(later[j], |Run(Empty, crc, earlier).entries|)
    ensures var i := |Run(Empty, crc, earlier).entries|;
            var e := Run(Empty, crc, earlier + Adding(path, data, time, date) + later);
            && Inv(e) && e.modified && i < |e.entries| && Stored(e, i, data) && Sound(e.entries[i].r, crc, data)
            && Describes(e.entries[i].r, path, time, date)
  {
    hide Inv, Run, CanRun, Added, Begin, Stored, Adding, Extract, Describes;
    var z := Run(Empty, crc, earlier);
    RunSplit(Empty, crc, earlier + Adding(path, data, time, date), later);
    RunSplit(Empty, crc, earlier, Adding(path, data, time, date));
    EmptyInv();
    RunKeepsInv(Empty, crc, earlier);
    RunKeepsInv(Empty, crc, earlier + Adding(path, data, time, date) + later);
    AddingAdds(z, crc, path, data, time, date);
    AddedFileStored(z, crc, path, data, time, date);
    RunKeepsModified(Added(z, crc, path, data, time, date), crc, later);
    AddedFileExtracts(z, crc, path, data, time, date, later, buffer);
  }

  /** A file added to an archive that is built from nothing, and left alone by whatever
      follows, comes back once the archive is saved and opened again. Nothing behind the directory
      may look like an end record, and its last entry must have a name. */
  lemma BuiltSavedOpenedExtracts(crc: seq<byte> -> nat, earlier: seq<Op>, path: seq<byte>, data: seq<byte>,
                                 time: nat, date: nat, later: seq<Op>, buffer: seq<byte>)
    requires Sums(crc) && AllTidy(earlier + Adding(path, data, time, date) + later)
    requires CanRun(Empty, crc, earlier + Adding(path, data, time, date) + later) && CanRun(Empty, crc, earlier)
    requires forall j :: 0 <= j < |later| ==> RemovesNot(later[j], |Run(Empty, crc, earlier).entries|)
    requires var e := Run(Empty, crc, earlier + Adding(path, data, time, date) + later);
             var rs := Live(e.entries);
             LastNamed(rs) && |Save(e).file| < WORD && Quiet(Save(e).file, e.cdStart + |DirBytes(rs)|)
    ensures var i := |Run(Empty, crc, earlier).entries|;
            var e := Run(Empty, crc, earlier + Adding(path, data, time, date) + later);
            var rs := Live(e.entries);
            && i < |e.entries| && Open(Save(e).file) == Some(rs)
            && LiveIndex(e.entries, i) < |rs| && Describes(rs[LiveIndex(e.entries, i)], path, time, date)
            && Extract(Reopened(Save(e).file, rs), crc, LiveIndex(e.entries, i), buffer) == Some(data)
  {
    hide Inv, Run, CanRun, Stored, Sound, Describes, Extract, Open, Save;
    hide AllTidy, Sums, InRange, Adding, DirBytes, Live;
    var ops := earlier + Adding(path, data, time, date) + later;
    var e := Run(Empty, crc, ops);
    BuiltArchive(crc, earlier, path, data, time, date, later, buffer);
    StoredSurvivesReopen(e, crc, |Run(Empty, crc, earlier).entries|, data, buffer);
    EmptyInv();
    RunInRange(Empty, crc, ops);
    LiveInRange(e.entries);
    SomeDirectory(Live(e.entries));
    SaveThenOpen(e);
  }

  lemma SomeDirectory(rs: seq<Rec>)
    requires rs != []
    ensures |DirBytes(rs)| > 0
  {
    DirBytesNonEmpty(rs);
  }

  /** One byte stored without a name: the archive just saved does not open. */
  lemma NamelessArchiveLost(crc: seq<byte> -> nat, x: byte, time: nat, date: nat)
    requires Sums(crc) && time < 0x1_0000 && date < 0x1_0000
    ensures CanRun(Empty, crc, Adding([], [x], time, date))
    ensures Open(Save(Run(Empty, crc, Adding([], [x], time, date))).file) == None
  {
    hide Open, Save, DirRecord, DirBytes, CanRun, Run, Begin, StreamWrite, Finalize, Quiet, WriteAt;
    var z := Nameless(time, date);
    NamelessBegin(time, date);
    var m := StreamWrite(z, crc, [x], 1);
    NamelessWrite(z, crc, x);
    AddingRuns(Empty, crc, [], [x], time, date);
    var e := Finalize(m, true, LFH);
    var r := z.claim.r.(crc := crc([x]));
    NamelessFinalize(m);
    OneRecord(e.entries, r);
    QuietAtEnd(e);
    SaveThenOpen(e);
  }

  /** What Begin makes of an empty archive, an empty name and one byte. */
  function Nameless(time: nat, date: nat): Zip {
    Zip([], LFH + 1, false, Claim(Rec(0, time, date, 0, 1, 1, 0x20, 0, []), 1, -1, LFH + 1, 0, 0, 0), [])
  }

  lemma NamelessBegin(time: nat, date: nat)
    ensures Begin(Empty, [], 1, time, date, 0) == Nameless(time, date)
    ensures Allowed(Empty, OpBegin([], 1, time, date, 0))
  {
    hide WriteAt;
    var path: seq<byte> := [];
    assert LocalSize(path, 1) == LFH + 1 && FindHole(Empty.entries, LFH + 1) == 0 && Slashed(path) == [];
    assert Allocate(Empty, path, 1, time, date) == Nameless(time, date);
    assert path[..0] == [];
    WriteNothing([], LFH);
  }

  lemma WriteNothing(f: seq<byte>, pos: nat)
    ensures WriteAt(f, pos, []) == f
  {
  }

  lemma NamelessWrite(z: Zip, crc: seq<byte> -> nat, x: byte)
    requires z.claim.Claim? && z.claim.written == 0 && z.claim.claimed == 1 && z.claim.r.name == []
    requires z.claim.r.offset == 0 && z.file == []
    ensures Allowed(z, OpWrite([x], 1))
    ensures var m := StreamWrite(z, crc, [x], 1);
            m == z.(file := m.file, claim := z.claim.(crc := crc([x]), written := 1)) && |m.file| == LFH + 1
  {
    hide WriteAt;
    assert [x][..1] == [x];
    WriteLength([], LFH, [x]);
  }

  lemma WriteLength(f: seq<byte>, pos: nat, w: seq<byte>)
    requires w != []
    ensures |WriteAt(f, pos, w)| == if pos + |w| < |f| then |f| else pos + |w|
  {
  }

  lemma NamelessFinalize(m: Zip)
    requires m.claim.Claim? && m.claim.hole == -1 && m.claim.written == m.claim.claimed == 1 && m.entries == []
    requires m.claim.r.offset == 0 && |m.file| == LFH + 1 && m.claim.r.size == 1
    ensures Allowed(m, OpFinalize(true, LFH))
    ensures var e := Finalize(m, true, LFH);
            && e.entries == [Entry(true, true, m.claim.r.(crc := m.claim.crc))] && e.modified
            && e.cdStart == m.cdStart && |e.file| == LFH + 1
  {
    hide WriteAt, Lfh;
    var r := m.claim.r.(crc := m.claim.crc);
    assert Lfh(r)[..LFH] == Lfh(r);
    WriteLength(m.file, 0, Lfh(r));
  }

  lemma OneRecord(entries: seq<Entry>, r: Rec)
    requires entries == [Entry(true, true, r)]
    ensures Live(entries) == [r] && DirBytes([r]) == DirRecord(r)
  {
    assert entries[1..] == [] && [r][1..] == [];
  }
}
