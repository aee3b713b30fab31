/** ParallelWriter of core/os/multi_thread.h: threads claim chunks of a shared buffer
    with one atomic add, fill and finalize them at leisure, and a writer thread later
    walks the raw chunk headers. The step system lets any number of claims be in
    flight on both buffers; a claim is one thread's work on one chunk. */
module ParallelWriter {
  import opened Bytes
  import Arith

  const HEADER: nat := 8
  const INFINITE: nat := 0xffff_ffff

  /** How far the claiming thread has got with its chunk. */
  datatype Phase = Reserved | Sized | Open | Final(len: nat)

  /** A claim that got a chunk; `data` is what its payload area holds. */
  datatype Claim = Claim(off: nat, size: nat, phase: Phase, data: seq<byte>)

  datatype Buf = Buf(bytes: seq<byte>, used: int, claims: seq<Claim>)

  /** `retired` lists the claims of each write-down, oldest first. */
  datatype State = State(
    size: nat, bufs: seq<Buf>, back: nat, output: seq<seq<byte>>,
    claimed: nat, claimFailures: nat, finalizeFailures: nat, unfinalized: nat,
    retired: seq<seq<Claim>>)

  datatype Action =
    | Reserve(b: nat, n: nat)                       // ClaimWriting: the atomic add
    | PutSize(b: nat, i: nat)                       // ClaimWriting: p->size = size
    | PutLength(b: nat, i: nat)                     // ClaimWriting: p->length = INFINITE
    | Fill(b: nat, i: nat, at: nat, w: seq<byte>)   // the caller writes payload bytes
    | Finalize(b: nat, i: nat, len: nat)            // FinalizeWritten
    | WriteDown                                     // _WriteDownBackBuffer
    | Swap

  /** Where claim `i` has to start: right after the claim before it. */
  function Start(claims: seq<Claim>, i: nat): nat
    requires i <= |claims|
  {
    if i == 0 then 0 else claims[i - 1].off + HEADER + claims[i - 1].size
  }

  function End(claims: seq<Claim>): nat { Start(claims, |claims|) }

  // ----- the header walk

  /** The first `len` payload bytes of the chunk at `off`. */
  function Payload(bytes: seq<byte>, off: nat, len: nat): seq<byte> {
    if off + HEADER + len <= |bytes| then bytes[off + HEADER..off + HEADER + len] else []
  }

  /** The loop of _WriteDownBackBuffer from chunk header `p`: payloads written, and the
      number of chunks found unfinalized. */
  function Walk(bytes: seq<byte>, p: nat, pend: int): (r: (seq<seq<byte>>, nat))
    requires pend <= |bytes| - HEADER
    decreases |bytes| - p
  {
    if p >= pend then ([], 0)
    else
      var size, length := U32(bytes, p), U32(bytes, p + 4);
      if size == 0 then ([], 0)
      else if p + HEADER + size > |bytes| then Visit(bytes, p, length)
      else
        var rest := Walk(bytes, p + HEADER + size, pend);
        var here := Visit(bytes, p, length);
        (here.0 + rest.0, here.1 + rest.1)
  }

  function Visit(bytes: seq<byte>, p: nat, length: nat): (seq<seq<byte>>, nat) {
    if length == INFINITE then ([], 1)
    else if length > 0 then ([Payload(bytes, p, length)], 0)
    else ([], 0)
  }

  function WalkEnd(b: Buf): int {
    var last := |b.bytes| - HEADER;
    if b.used < last then b.used else last
  }

  // ----- actions

  predicate HasClaim(s: State, b: nat, i: nat) {
    b < |s.bufs| && i < |s.bufs[b].claims|
    && s.bufs[b].claims[i].off + HEADER + s.bufs[b].claims[i].size <= |s.bufs[b].bytes|
  }

  /** A write-down happens only after every claim on the buffer has its header: the
      pairing rule of ClaimWriting and FinalizeWritten. */
  predicate HeadersWritten(b: Buf) {
    forall i :: 0 <= i < |b.claims| ==> b.claims[i].phase.Open? || b.claims[i].phase.Final?
  }

  predicate Enabled(s: State, a: Action) {
    match a
    case Reserve(b, n) =>
      b < |s.bufs| && n < WORD && s.bufs[b].used >= 0 && !Overflows(s.bufs[b].used, n, s.size)
    case PutSize(b, i) => HasClaim(s, b, i) && s.bufs[b].claims[i].phase.Reserved?
    case PutLength(b, i) => HasClaim(s, b, i) && s.bufs[b].claims[i].phase.Sized?
    case Fill(b, i, at, w) =>
      && HasClaim(s, b, i) && s.bufs[b].claims[i].phase.Open?
      && at + |w| <= s.bufs[b].claims[i].size == |s.bufs[b].claims[i].data|
    case Finalize(b, i, len) =>
      HasClaim(s, b, i) && (s.bufs[b].claims[i].phase.Open? || s.bufs[b].claims[i].phase.Final?)
    case WriteDown => s.back < |s.bufs| && HeadersWritten(s.bufs[s.back])
    case Swap => true
  }

  function SetClaim(b: Buf, i: nat, off: nat, w: seq<byte>, c: Claim): Buf
    requires i < |b.claims| && off + |w| <= |b.bytes|
  {
    b.(bytes := Splice(b.bytes, off, w), claims := b.claims[i := c])
  }

  /** A sum stored in an `int` of 32 bits. */
  function AsInt(x: nat): (r: int)
    ensures r < 0x8000_0000 && (x < 0x8000_0000 ==> r == x)
  {
    var y := x % WORD;
    if y < 0x8000_0000 then y else y - WORD
  }

  /** The capacity test of ClaimWriting passes although the claim does not fit: the sum has
      left the range of `int` and come out small or negative. */
  predicate Overflows(used: nat, n: nat, size: nat) {
    used + n + HEADER >= 0x8000_0000 && AsInt(used + n + HEADER) <= size
  }

  /** ClaimWriting up to the capacity test, whatever the size asked for. */
  function Claiming(s: State, b: nat, n: nat): State
    requires b < |s.bufs| && s.bufs[b].used >= 0
  {
    var f := s.bufs[b];
    var used := AsInt(f.used + n + HEADER);
    if used <= s.size then
      var c := Claim(f.used, n, Reserved, Payload(f.bytes, f.used, n));
      s.(bufs := s.bufs[b := f.(used := used, claims := f.claims + [c])], claimed := s.claimed + 1)
    else
      s.(bufs := s.bufs[b := f.(used := used)], claimed := s.claimed + 1,
         claimFailures := s.claimFailures + 1)
  }

  function Apply(s: State, a: Action): State
    requires Enabled(s, a)
  {
    match a
    case Reserve(b, n) => Claiming(s, b, n)
    case PutSize(b, i) =>
      var c := s.bufs[b].claims[i];
      s.(bufs := s.bufs[b := SetClaim(s.bufs[b], i, c.off, W32(c.size), c.(phase := Sized))])
    case PutLength(b, i) =>
      var c := s.bufs[b].claims[i];
      s.(bufs := s.bufs[b := SetClaim(s.bufs[b], i, c.off + 4, W32(INFINITE), c.(phase := Open))])
    case Fill(b, i, at, w) =>
      var c := s.bufs[b].claims[i];
      s.(bufs := s.bufs[b := SetClaim(s.bufs[b], i, c.off + HEADER + at, w, c.(data := Splice(c.data, at, w)))])
    case Finalize(b, i, len) =>
      var c := s.bufs[b].claims[i];
      var size, length := U32(s.bufs[b].bytes, c.off), U32(s.bufs[b].bytes, c.off + 4);
      if len <= size && length == INFINITE && size < s.size then
        s.(bufs := s.bufs[b := SetClaim(s.bufs[b], i, c.off + 4, W32(len), c.(phase := Final(len)))])
      else s.(finalizeFailures := s.finalizeFailures + 1)
    case WriteDown =>
      var f := s.bufs[s.back];
      var r := Walk(f.bytes, 0, WalkEnd(f));
      s.(bufs := s.bufs[s.back := Buf(Zeros(|f.bytes|), 0, [])], output := s.output + r.0,
         unfinalized := s.unfinalized + r.1, retired := s.retired + [f.claims])
    case Swap => s.(back := if s.back == 0 then 1 else 0)
  }

  /** Both buffers zeroed and empty. */
  predicate Init(s: State) {
    && |s.bufs| == 2 && s.back == 1 && s.size < 0x8000_0000
    && s.bufs[0] == Buf(Zeros(s.size), 0, []) && s.bufs[1] == s.bufs[0]
    && s.output == [] && s.retired == []
    && s.claimed == s.claimFailures == s.finalizeFailures == s.unfinalized == 0
  }

  predicate CanRun(s: State, acts: seq<Action>)
    decreases |acts|
  {
    acts == [] || (Enabled(s, acts[0]) && CanRun(Apply(s, acts[0]), acts[1..]))
  }

  function Run(s: State, acts: seq<Action>): State
    requires CanRun(s, acts)
    decreases |acts|
  {
    if acts == [] then s else Run(Apply(s, acts[0]), acts[1..])
  }

  // ----- what a write-down should produce

  function EmitOne(c: Claim): seq<seq<byte>> {
    if c.phase.Final? && 0 < c.phase.len <= |c.data| then [c.data[..c.phase.len]] else []
  }

  /** Payloads of the finalized claims, in claim order. */
  function Emit(claims: seq<Claim>): seq<seq<byte>> {
    if claims == [] then [] else EmitOne(claims[0]) + Emit(claims[1..])
  }

  function OpenOne(c: Claim): nat { if c.phase.Open? then 1 else 0 }

  function Unfinalized(claims: seq<Claim>): nat {
    if claims == [] then 0 else OpenOne(claims[0]) + Unfinalized(claims[1..])
  }

  /** The claims before the first claim of size 0. */
  function Visible(claims: seq<Claim>): (v: seq<Claim>)
    ensures (forall i :: 0 <= i < |claims| ==> claims[i].size > 0) ==> v == claims
  {
    if claims == [] || claims[0].size == 0 then [] else [claims[0]] + Visible(claims[1..])
  }

  function EmitAll(batches: seq<seq<Claim>>): seq<seq<byte>> {
    if batches == [] then []
    else EmitAll(batches[..|batches| - 1]) + Emit(Visible(batches[|batches| - 1]))
  }

  function UnfinalizedAll(batches: seq<seq<Claim>>): nat {
    if batches == [] then 0
    else UnfinalizedAll(batches[..|batches| - 1]) + Unfinalized(Visible(batches[|batches| - 1]))
  }

  function Total(batches: seq<seq<Claim>>): nat {
    if batches == [] then 0 else Total(batches[..|batches| - 1]) + |batches[|batches| - 1]|
  }

  // ----- the invariant

  predicate ClaimOk(bytes: seq<byte>, c: Claim) {
    && c.off + HEADER + c.size <= |bytes| && |c.data| == c.size < INFINITE
    && c.data == bytes[c.off + HEADER..c.off + HEADER + c.size]
    && U32(bytes, c.off) == (if c.phase.Reserved? then 0 else c.size)
    && U32(bytes, c.off + 4) ==
       (match c.phase
        case Reserved => 0
        case Sized => 0
        case Open => INFINITE
        case Final(len) => len)
    && (c.phase.Final? ==> c.phase.len <= c.size)
  }

  /** Claims lie end to end from the start of the buffer. */
  predicate Tiled(claims: seq<Claim>) {
    forall i {:trigger Start(claims, i)} :: 0 <= i < |claims| ==> claims[i].off == Start(claims, i)
  }

  predicate BufInv(b: Buf, size: nat) {
    && |b.bytes| == size
    && Tiled(b.claims) && End(b.claims) <= size
    && (b.used == End(b.claims) || b.used > size) && b.used < 0x8000_0000
    && (forall i {:trigger ClaimOk(b.bytes, b.claims[i])} ::
          0 <= i < |b.claims| ==> ClaimOk(b.bytes, b.claims[i]))
    && (forall k :: End(b.claims) <= k < size ==> b.bytes[k] == 0)
  }

  predicate Inv(s: State) {
    && |s.bufs| == 2 && s.back < 2 && s.size < 0x8000_0000
    && BufInv(s.bufs[0], s.size) && BufInv(s.bufs[1], s.size)
    && s.output == EmitAll(s.retired) && s.unfinalized == UnfinalizedAll(s.retired)
    && s.claimed == s.claimFailures + Total(s.retired) + |s.bufs[0].claims| + |s.bufs[1].claims|
  }

  lemma {:induction false} TiledOrder(claims: seq<Claim>, i: nat, j: nat)
    requires Tiled(claims) && i < j <= |claims|
    ensures claims[i].off + HEADER + claims[i].size <= Start(claims, j)
    ensures j < |claims| ==> Start(claims, j) == claims[j].off
    decreases j - i
  {
    if i < j - 1 { TiledOrder(claims, i, j - 1); }
  }

  lemma TiledUpdate(claims: seq<Claim>, i: nat, c: Claim)
    requires Tiled(claims) && i < |claims| && c.off == claims[i].off && c.size == claims[i].size
    ensures Tiled(claims[i := c]) && End(claims[i := c]) == End(claims)
  {
    var r := claims[i := c];
    forall k | 0 <= k < |r|
      ensures r[k].off == Start(r, k)
    {
      assert Start(r, k) == Start(claims, k);
    }
  }

  lemma ClaimFrame(bytes: seq<byte>, off: nat, w: seq<byte>, d: Claim)
    requires ClaimOk(bytes, d) && off + |w| <= |bytes|
    requires off + |w| <= d.off || d.off + HEADER + d.size <= off
    ensures ClaimOk(Splice(bytes, off, w), d)
  {
    U32Frame(bytes, off, w, d.off);
    U32Frame(bytes, off, w, d.off + 4);
    SpliceOutside(bytes, off, w, d.off + HEADER, d.off + HEADER + d.size);
  }

  /** Writing inside one chunk disturbs neither the other chunks nor the zeroed rest. */
  lemma SetClaimKeepsBufInv(b: Buf, size: nat, i: nat, off: nat, w: seq<byte>, c: Claim)
    requires BufInv(b, size) && i < |b.claims|
    requires c.off == b.claims[i].off && c.size == b.claims[i].size
    requires c.off <= off && off + |w| <= c.off + HEADER + c.size && off + |w| <= |b.bytes|
    requires ClaimOk(Splice(b.bytes, off, w), c)
    ensures BufInv(SetClaim(b, i, off, w, c), size)
  {
    var r := SetClaim(b, i, off, w, c);
    TiledUpdate(b.claims, i, c);
    TiledOrder(b.claims, i, |b.claims|);
    forall j | 0 <= j < |r.claims|
      ensures ClaimOk(r.bytes, r.claims[j])
    {
      if j != i {
        if j < i { TiledOrder(b.claims, j, i); } else { TiledOrder(b.claims, i, j); }
        ClaimFrame(b.bytes, off, w, b.claims[j]);
      }
    }
  }

  // ----- every action keeps the invariant

  lemma InitInv(s: State)
    requires Init(s)
    ensures Inv(s)
  {
    EmptyBufInv(s.size);
  }

  lemma FreshClaimOk(bytes: seq<byte>, off: nat, n: nat)
    requires off + HEADER + n <= |bytes| && n < INFINITE
    requires forall k :: off <= k < |bytes| ==> bytes[k] == 0
    ensures ClaimOk(bytes, Claim(off, n, Reserved, Payload(bytes, off, n)))
  {
  }

  lemma TiledExtend(claims: seq<Claim>, c: Claim)
    requires Tiled(claims) && c.off == End(claims)
    ensures Tiled(claims + [c])
  {
    var cs := claims + [c];
    forall i | 0 <= i < |cs|
      ensures cs[i].off == Start(cs, i)
    {
      assert Start(cs, i) == Start(claims, i);
    }
  }

  lemma ReserveKeepsBufInv(b: Buf, size: nat, n: nat)
    requires BufInv(b, size) && n < INFINITE && b.used + n + HEADER <= size < 0x8000_0000
    ensures BufInv(b.(used := b.used + n + HEADER,
                      claims := b.claims + [Claim(b.used, n, Reserved, Payload(b.bytes, b.used, n))]), size)
  {
    FreshClaimOk(b.bytes, b.used, n);
    TiledExtend(b.claims, Claim(b.used, n, Reserved, Payload(b.bytes, b.used, n)));
  }

  lemma SizedClaimOk(bytes: seq<byte>, c: Claim)
    requires ClaimOk(bytes, c) && c.phase.Reserved?
    ensures ClaimOk(Splice(bytes, c.off, W32(c.size)), c.(phase := Sized))
  {
    U32Written(bytes, c.off, c.size);
    U32Frame(bytes, c.off, W32(c.size), c.off + 4);
    SpliceOutside(bytes, c.off, W32(c.size), c.off + HEADER, c.off + HEADER + c.size);
  }

  /** Storing a length word, INFINITE or final. */
  lemma LengthClaimOk(bytes: seq<byte>, c: Claim, len: nat, phase: Phase)
    requires ClaimOk(bytes, c) && !c.phase.Reserved?
    requires (len == INFINITE && phase == Open) || (len <= c.size && phase == Final(len))
    ensures ClaimOk(Splice(bytes, c.off + 4, W32(len)), c.(phase := phase))
  {
    U32Written(bytes, c.off + 4, len);
    U32Frame(bytes, c.off + 4, W32(len), c.off);
    SpliceOutside(bytes, c.off + 4, W32(len), c.off + HEADER, c.off + HEADER + c.size);
  }

  lemma FilledClaimOk(bytes: seq<byte>, c: Claim, at: nat, w: seq<byte>)
    requires ClaimOk(bytes, c) && at + |w| <= c.size
    ensures ClaimOk(Splice(bytes, c.off + HEADER + at, w), c.(data := Splice(c.data, at, w)))
  {
    var off := c.off + HEADER + at;
    U32Frame(bytes, off, w, c.off);
    U32Frame(bytes, off, w, c.off + 4);
    SpliceSlice(bytes, c.off + HEADER, c.off + HEADER + c.size, at, w);
  }

  lemma VisitClaim(bytes: seq<byte>, c: Claim)
    requires ClaimOk(bytes, c) && (c.phase.Open? || c.phase.Final?)
    ensures Visit(bytes, c.off, U32(bytes, c.off + 4)) == (EmitOne(c), OpenOne(c))
  {
    if c.phase.Final? && c.phase.len > 0 {
      assert Payload(bytes, c.off, c.phase.len) == c.data[..c.phase.len];
    }
  }

  lemma EmitCons(c: Claim, cs: seq<Claim>)
    ensures Emit([c] + cs) == EmitOne(c) + Emit(cs)
    ensures Unfinalized([c] + cs) == OpenOne(c) + Unfinalized(cs)
  {
    assert ([c] + cs)[1..] == cs;
  }

  lemma WalkUnfold(bytes: seq<byte>, p: nat, pend: int)
    requires p < pend <= |bytes| - HEADER
    requires U32(bytes, p) > 0 && p + HEADER + U32(bytes, p) <= |bytes|
    ensures var rest := Walk(bytes, p + HEADER + U32(bytes, p), pend);
            var here := Visit(bytes, p, U32(bytes, p + 4));
            Walk(bytes, p, pend) == (here.0 + rest.0, here.1 + rest.1)
  {
  }

  lemma WalkLast(bytes: seq<byte>, p: nat, pend: int)
    requires p < pend <= |bytes| - HEADER
    ensures U32(bytes, p) == 0 ==> Walk(bytes, p, pend) == ([], 0)
    ensures U32(bytes, p) > 0 && p + HEADER + U32(bytes, p) > |bytes| ==>
              Walk(bytes, p, pend) == Visit(bytes, p, U32(bytes, p + 4))
  {
  }

  lemma WalkOver(bytes: seq<byte>, p: nat, pend: int)
    requires p >= pend && pend <= |bytes| - HEADER
    ensures Walk(bytes, p, pend) == ([], 0)
  {
  }

  lemma VisibleStops(cs: seq<Claim>)
    requires cs == [] || cs[0].size == 0
    ensures Emit(Visible(cs)) == [] && Unfinalized(Visible(cs)) == 0
  {
  }

  lemma VisibleUnfold(c: Claim, cs: seq<Claim>)
    requires c.size > 0
    ensures Visible([c] + cs) == [c] + Visible(cs)
  {
    assert ([c] + cs)[1..] == cs;
  }

  lemma WalkStops(b: Buf, size: nat, i: nat)
    requires BufInv(b, size) && HeadersWritten(b) && i <= |b.claims|
    requires i < |b.claims| ==> b.claims[i].size == 0
    ensures Walk(b.bytes, Start(b.claims, i), WalkEnd(b)) == ([], 0)
  {
    var p := Start(b.claims, i);
    if i < |b.claims| {
      assert ClaimOk(b.bytes, b.claims[i]);
    }
  }

  lemma ClaimBeforeEnd(b: Buf, size: nat, i: nat)
    requires BufInv(b, size) && i < |b.claims| && b.claims[i].size > 0
    ensures Start(b.claims, i) == b.claims[i].off < WalkEnd(b)
  {
    TiledOrder(b.claims, i, |b.claims|);
  }

  lemma WalkOneClaim(b: Buf, size: nat, i: nat)
    requires BufInv(b, size) && HeadersWritten(b) && i < |b.claims| && b.claims[i].size > 0
    ensures var rest := Walk(b.bytes, Start(b.claims, i + 1), WalkEnd(b));
            Walk(b.bytes, Start(b.claims, i), WalkEnd(b)) ==
              (EmitOne(b.claims[i]) + rest.0, OpenOne(b.claims[i]) + rest.1)
  {
    hide Walk, Visit, BufInv, ClaimOk, EmitOne, OpenOne, WalkEnd, U32;
    var c := b.claims[i];
    BufClaimOk(b, size, i);
    ClaimBeforeEnd(b, size, i);
    WalkEndBound(b);
    WalkUnfold(b.bytes, c.off, WalkEnd(b));
    VisitClaim(b.bytes, c);
  }

  lemma WalkEndBound(b: Buf)
    ensures WalkEnd(b) <= |b.bytes| - HEADER
  {
  }

  /** The facts about one claim that the buffer's invariant holds. */
  lemma BufClaimOk(b: Buf, size: nat, i: nat)
    requires BufInv(b, size) && i < |b.claims|
    ensures var c := b.claims[i];
            && ClaimOk(b.bytes, c) && c.off + HEADER + c.size <= |b.bytes| == size && |c.data| == c.size < INFINITE
            && (!c.phase.Reserved? ==> U32(b.bytes, c.off) == c.size)
  {
    hide U32;
    assert ClaimOk(b.bytes, b.claims[i]);
  }

  /** The walk over raw headers, started at claim `i`, finds exactly the claims from `i`
      on up to the first empty one, whatever `used` has grown to. */
  lemma {:induction false} WalkFindsClaims(b: Buf, size: nat, i: nat)
    requires BufInv(b, size) && HeadersWritten(b) && i <= |b.claims|
    ensures Walk(b.bytes, Start(b.claims, i), WalkEnd(b)) ==
              (Emit(Visible(b.claims[i..])), Unfinalized(Visible(b.claims[i..])))
    decreases |b.claims| - i
  {
    hide *;
    if i == |b.claims| || b.claims[i].size == 0 {
      WalkStops(b, size, i);
      VisibleStops(b.claims[i..]);
    } else {
      var c, rest := b.claims[i], b.claims[i + 1..];
      assert b.claims[i..] == [c] + rest;
      WalkOneClaim(b, size, i);
      WalkFindsClaims(b, size, i + 1);
      VisibleUnfold(c, rest);
      EmitCons(c, Visible(rest));
    }
  }

  lemma WalkFindsAll(b: Buf, size: nat)
    requires BufInv(b, size) && HeadersWritten(b)
    ensures Walk(b.bytes, 0, WalkEnd(b)) == (Emit(Visible(b.claims)), Unfinalized(Visible(b.claims)))
  {
    WalkFindsClaims(b, size, 0);
    assert b.claims[0..] == b.claims;
  }

  lemma WriteDownEmits(s: State)
    requires Inv(s) && Enabled(s, WriteDown)
    ensures Apply(s, WriteDown) ==
            s.(bufs := s.bufs[s.back := Buf(Zeros(s.size), 0, [])],
               output := s.output + Emit(Visible(s.bufs[s.back].claims)),
               unfinalized := s.unfinalized + Unfinalized(Visible(s.bufs[s.back].claims)),
               retired := s.retired + [s.bufs[s.back].claims])
  {
    WalkFindsAll(s.bufs[s.back], s.size);
  }

  lemma WriteDownKeepsInv(s: State)
    requires Inv(s) && Enabled(s, WriteDown)
    ensures Inv(Apply(s, WriteDown))
  {
    WriteDownEmits(s);
    RetireBatch(s.retired, s.bufs[s.back].claims);
    EmptyBufInv(s.size);
  }

  lemma RetireBatch(batches: seq<seq<Claim>>, batch: seq<Claim>)
    ensures EmitAll(batches + [batch]) == EmitAll(batches) + Emit(Visible(batch))
    ensures UnfinalizedAll(batches + [batch]) == UnfinalizedAll(batches) + Unfinalized(Visible(batch))
    ensures Total(batches + [batch]) == Total(batches) + |batch|
  {
    var all := batches + [batch];
    assert all[..|all| - 1] == batches && all[|all| - 1] == batch;
  }

  lemma EmptyBufInv(size: nat)
    ensures BufInv(Buf(Zeros(size), 0, []), size)
  {
  }

  lemma BufStepKeepsInv(s: State, b: nat, f: Buf)
    requires Inv(s) && b < 2 && BufInv(f, s.size) && |f.claims| == |s.bufs[b].claims|
    ensures Inv(s.(bufs := s.bufs[b := f]))
  {
  }

  lemma ReserveKeepsInv(s: State, b: nat, n: nat)
    requires Inv(s) && Enabled(s, Reserve(b, n))
    ensures Inv(Apply(s, Reserve(b, n)))
  {
    if s.bufs[b].used + n + HEADER <= s.size { ReserveKeepsBufInv(s.bufs[b], s.size, n); }
  }

  /** All claims of a buffer inside it, one behind the other. */
  predicate Placed(f: Buf, size: nat) {
    && (forall i :: 0 <= i < |f.claims| ==> f.claims[i].off + HEADER + f.claims[i].size <= size)
    && forall i, j :: 0 <= i < j < |f.claims| ==> f.claims[i].off + HEADER + f.claims[i].size <= f.claims[j].off
  }

  lemma InvPlaces(f: Buf, size: nat)
    requires BufInv(f, size)
    ensures Placed(f, size)
  {
    hide BufInv, Tiled;
    BufTiled(f, size);
    forall i | 0 <= i < |f.claims|
      ensures f.claims[i].off + HEADER + f.claims[i].size <= size
    {
      TiledOrder(f.claims, i, |f.claims|);
    }
    forall i, j | 0 <= i < j < |f.claims|
      ensures f.claims[i].off + HEADER + f.claims[i].size <= f.claims[j].off
    {
      TiledOrder(f.claims, i, j);
    }
  }

  lemma BufTiled(f: Buf, size: nat)
    requires BufInv(f, size)
    ensures Tiled(f.claims) && End(f.claims) <= size && f.used >= 0
  {
  }

  /** After any run, a claim of any size keeps the buffer's claims disjoint and inside it
      exactly when the capacity test does not overflow; below 2^31 it never does. */
  lemma ClaimPlacedIff(s0: State, acts: seq<Action>, b: nat, n: nat)
    requires Init(s0) && CanRun(s0, acts) && b < 2 && n < WORD
    ensures |Run(s0, acts).bufs| == 2 && Run(s0, acts).bufs[b].used >= 0
    ensures var s := Run(s0, acts);
            && (Placed(Claiming(s, b, n).bufs[b], s.size) <==> !Overflows(s.bufs[b].used, n, s.size))
            && (s.bufs[b].used + n + HEADER < 0x8000_0000 ==> !Overflows(s.bufs[b].used, n, s.size))
  {
    hide Run, CanRun, BufInv, Placed;
    InitInv(s0);
    RunKeepsInv(s0, acts);
    var s := Run(s0, acts);
    BufTiled(s.bufs[b], s.size);
    if Overflows(s.bufs[b].used, n, s.size) {
      OverflowMisplaces(s, b, n);
    } else {
      ReserveKeepsInv(s, b, n);
      InvPlaces(Claiming(s, b, n).bufs[b], s.size);
    }
  }

  lemma OverflowMisplaces(s: State, b: nat, n: nat)
    requires b < |s.bufs| && s.bufs[b].used >= 0 && s.size < 0x8000_0000 && Overflows(s.bufs[b].used, n, s.size)
    ensures !Placed(Claiming(s, b, n).bufs[b], s.size)
  {
    var cs := Claiming(s, b, n).bufs[b].claims;
    assert cs[|cs| - 1] == Claim(s.bufs[b].used, n, Reserved, Payload(s.bufs[b].bytes, s.bufs[b].used, n));
  }

  /** A claim of 2^31 bytes on fresh buffers is accepted, whatever their size; and of two
      claims of 2^30 bytes on small buffers the first is refused and the second accepted. */
  lemma HugeClaimsAccepted(s: State)
    requires Init(s)
    ensures Claiming(s, 0, 0x8000_0000).claimFailures == 0
    ensures s.size < 0x4000_0000 ==>
              var r := Claiming(s, 0, 0x4000_0000);
              && r.claimFailures == 1 && |r.bufs| == 2 && r.bufs[0].used >= 0
              && Claiming(r, 0, 0x4000_0000).claimFailures == 1
  {
    assert AsInt(0x8000_0008) < 0 && AsInt(0x8000_0010) < 0;
  }

  /** Storing a length word, INFINITE or final. */
  lemma LengthKeepsBufInv(f: Buf, size: nat, i: nat, len: nat, phase: Phase)
    requires BufInv(f, size) && i < |f.claims| && !f.claims[i].phase.Reserved?
    requires (len == INFINITE && phase == Open) || (len <= f.claims[i].size && phase == Final(len))
    ensures f.claims[i].off + HEADER <= |f.bytes|
    ensures BufInv(SetClaim(f, i, f.claims[i].off + 4, W32(len), f.claims[i].(phase := phase)), size)
  {
    hide BufInv, ClaimOk, Splice, U32, W32;
    var c := f.claims[i];
    BufClaimOk(f, size, i);
    LengthClaimOk(f.bytes, c, len, phase);
    SetClaimKeepsBufInv(f, size, i, c.off + 4, W32(len), c.(phase := phase));
  }

  lemma SizeKeepsBufInv(f: Buf, size: nat, i: nat)
    requires BufInv(f, size) && i < |f.claims| && f.claims[i].phase.Reserved?
    ensures f.claims[i].off + HEADER <= |f.bytes|
    ensures BufInv(SetClaim(f, i, f.claims[i].off, W32(f.claims[i].size), f.claims[i].(phase := Sized)), size)
  {
    hide BufInv, ClaimOk, Splice, U32, W32;
    var c := f.claims[i];
    BufClaimOk(f, size, i);
    SizedClaimOk(f.bytes, c);
    SetClaimKeepsBufInv(f, size, i, c.off, W32(c.size), c.(phase := Sized));
  }

  lemma FillKeepsBufInv(f: Buf, size: nat, i: nat, at: nat, w: seq<byte>)
    requires BufInv(f, size) && i < |f.claims| && at + |w| <= f.claims[i].size
    ensures f.claims[i].off + HEADER + f.claims[i].size <= |f.bytes| && |f.claims[i].data| == f.claims[i].size
    ensures var c := f.claims[i];
            BufInv(SetClaim(f, i, c.off + HEADER + at, w, c.(data := Splice(c.data, at, w))), size)
  {
    hide BufInv, ClaimOk, Splice, U32;
    var c := f.claims[i];
    BufClaimOk(f, size, i);
    FilledClaimOk(f.bytes, c, at, w);
    SpliceLength(c.data, at, w);
    SetClaimKeepsBufInv(f, size, i, c.off + HEADER + at, w, c.(data := Splice(c.data, at, w)));
  }

  lemma SpliceLength(s: seq<byte>, off: nat, w: seq<byte>)
    requires off + |w| <= |s|
    ensures |Splice(s, off, w)| == |s|
  {
  }

  lemma PutSizeKeepsInv(s: State, b: nat, i: nat)
    requires Inv(s) && Enabled(s, PutSize(b, i))
    ensures Inv(Apply(s, PutSize(b, i)))
  {
    var f, c := s.bufs[b], s.bufs[b].claims[i];
    SizeKeepsBufInv(f, s.size, i);
    BufStepKeepsInv(s, b, SetClaim(f, i, c.off, W32(c.size), c.(phase := Sized)));
  }

  lemma PutLengthKeepsInv(s: State, b: nat, i: nat)
    requires Inv(s) && Enabled(s, PutLength(b, i))
    ensures Inv(Apply(s, PutLength(b, i)))
  {
    var f, c := s.bufs[b], s.bufs[b].claims[i];
    LengthKeepsBufInv(f, s.size, i, INFINITE, Open);
    BufStepKeepsInv(s, b, SetClaim(f, i, c.off + 4, W32(INFINITE), c.(phase := Open)));
  }

  lemma FillKeepsInv(s: State, b: nat, i: nat, at: nat, w: seq<byte>)
    requires Inv(s) && Enabled(s, Fill(b, i, at, w))
    ensures Inv(Apply(s, Fill(b, i, at, w)))
  {
    var f, c := s.bufs[b], s.bufs[b].claims[i];
    FillKeepsBufInv(f, s.size, i, at, w);
    BufStepKeepsInv(s, b, SetClaim(f, i, c.off + HEADER + at, w, c.(data := Splice(c.data, at, w))));
  }

  lemma FinalizeKeepsInv(s: State, b: nat, i: nat, len: nat)
    requires Inv(s) && Enabled(s, Finalize(b, i, len))
    ensures Inv(Apply(s, Finalize(b, i, len)))
  {
    hide BufInv, ClaimOk;
    FinalizeSucceedsIff(s, b, i, len);
    var f := s.bufs[b];
    var c := f.claims[i];
    if c.phase.Open? && len <= c.size {
      LengthKeepsBufInv(f, s.size, i, len, Final(len));
      BufStepKeepsInv(s, b, SetClaim(f, i, c.off + 4, W32(len), c.(phase := Final(len))));
    }
  }

  lemma StepKeepsInv(s: State, a: Action)
    requires Inv(s) && Enabled(s, a)
    ensures Inv(Apply(s, a))
  {
    match a
    case Reserve(b, n) => ReserveKeepsInv(s, b, n);
    case Finalize(b, i, len) => FinalizeKeepsInv(s, b, i, len);
    case WriteDown => WriteDownKeepsInv(s);
    case Swap =>
    case PutSize(b, i) => PutSizeKeepsInv(s, b, i);
    case PutLength(b, i) => PutLengthKeepsInv(s, b, i);
    case Fill(b, i, at, w) => FillKeepsInv(s, b, i, at, w);
  }

  lemma {:induction false} RunKeepsInv(s: State, acts: seq<Action>)
    requires Inv(s) && CanRun(s, acts)
    ensures Inv(Run(s, acts))
    decreases |acts|
  {
    if acts != [] {
      StepKeepsInv(s, acts[0]);
      RunKeepsInv(Apply(s, acts[0]), acts[1..]);
    }
  }

  // ----- what every run guarantees

  /** Accepted claims are disjoint and in bounds, and FinalizeWritten succeeds exactly on
      a claim that is open and was given enough room. */
  lemma ClaimsDisjoint(s0: State, acts: seq<Action>, b: nat, i: nat, j: nat)
    requires Init(s0) && CanRun(s0, acts) && b < |Run(s0, acts).bufs|
    requires i < j < |Run(s0, acts).bufs[b].claims|
    ensures var cs := Run(s0, acts).bufs[b].claims;
            cs[i].off + HEADER + cs[i].size <= cs[j].off
            && cs[j].off + HEADER + cs[j].size <= s0.size == Run(s0, acts).size
  {
    InitInv(s0);
    RunKeepsInv(s0, acts);
    RunKeepsSize(s0, acts);
    var f := Run(s0, acts).bufs[b];
    TiledOrder(f.claims, i, j);
    TiledOrder(f.claims, j, |f.claims|);
  }

  lemma {:induction false} RunKeepsSize(s: State, acts: seq<Action>)
    requires CanRun(s, acts)
    ensures Run(s, acts).size == s.size
    decreases |acts|
  {
    if acts != [] { RunKeepsSize(Apply(s, acts[0]), acts[1..]); }
  }

  lemma FinalizeSucceedsIff(s: State, b: nat, i: nat, len: nat)
    requires Inv(s) && Enabled(s, Finalize(b, i, len))
    ensures var c := s.bufs[b].claims[i];
            var r := Apply(s, Finalize(b, i, len));
            if c.phase.Open? && len <= c.size
            then r == s.(bufs := s.bufs[b := SetClaim(s.bufs[b], i, c.off + 4, W32(len), c.(phase := Final(len)))])
            else r == s.(finalizeFailures := s.finalizeFailures + 1)
  {
    assert ClaimOk(s.bufs[b].bytes, s.bufs[b].claims[i]);
  }

  /** Over every run, the output is what the retired claims finalized, in claim order,
      and every accepted claim is either retired or still in one of the two buffers. */
  lemma OutputIsFinalizedClaims(s0: State, acts: seq<Action>)
    requires Init(s0) && CanRun(s0, acts)
    ensures var s := Run(s0, acts);
            && s.output == EmitAll(s.retired)
            && s.unfinalized == UnfinalizedAll(s.retired)
            && |s.bufs| == 2
            && s.claimed - s.claimFailures == Total(s.retired) + |s.bufs[0].claims| + |s.bufs[1].claims|
  {
    InitInv(s0);
    RunKeepsInv(s0, acts);
  }

  /** The closing sequence of _WriteRoute, back buffer, swap, back buffer, retires every
      accepted claim: with no empty claims, all and only finalized payloads are out. */
  lemma CloseWritesEverything(s0: State, acts: seq<Action>)
    requires Init(s0) && CanRun(s0, acts)
    requires forall b :: 0 <= b < |Run(s0, acts).bufs| ==> HeadersWritten(Run(s0, acts).bufs[b])
    ensures CanRun(Run(s0, acts), [WriteDown, Swap, WriteDown])
    ensures var s := Run(s0, acts);
            var r := Run(s, [WriteDown, Swap, WriteDown]);
            && |r.bufs| == |s.bufs| == 2 && s.back < 2
            && r.bufs[0].claims == [] && r.bufs[1].claims == []
            && r.claimed - r.claimFailures == Total(r.retired)
            && r.output == EmitAll(s.retired)
                           + Emit(Visible(s.bufs[s.back].claims)) + Emit(Visible(s.bufs[1 - s.back].claims))
  {
    hide Apply, Run, CanRun, Enabled, BufInv, Emit, EmitAll, Visible, HeadersWritten;
    InitInv(s0);
    RunKeepsInv(s0, acts);
    CloseFrom(Run(s0, acts));
  }

  lemma CloseSteps(s: State)
    requires Inv(s) && HeadersWritten(s.bufs[0]) && HeadersWritten(s.bufs[1])
    ensures Enabled(s, WriteDown) && Enabled(Apply(Apply(s, WriteDown), Swap), WriteDown)
    ensures var r := Apply(Apply(Apply(s, WriteDown), Swap), WriteDown);
            && Inv(r) && r.bufs[0].claims == [] && r.bufs[1].claims == []
            && r.output == s.output + Emit(Visible(s.bufs[s.back].claims))
                                    + Emit(Visible(s.bufs[1 - s.back].claims))
  {
    var s1 := Apply(s, WriteDown);
    WriteDownEmits(s);
    WriteDownKeepsInv(s);
    var s2 := Apply(s1, Swap);
    assert s2.bufs[s2.back] == s.bufs[1 - s.back];
    WriteDownEmits(s2);
    WriteDownKeepsInv(s2);
  }

  lemma CloseFrom(s: State)
    requires Inv(s) && HeadersWritten(s.bufs[0]) && HeadersWritten(s.bufs[1])
    ensures CanRun(s, [WriteDown, Swap, WriteDown])
    ensures var r := Run(s, [WriteDown, Swap, WriteDown]);
            && Inv(r) && r.bufs[0].claims == [] && r.bufs[1].claims == []
            && r.output == s.output + Emit(Visible(s.bufs[s.back].claims))
                                    + Emit(Visible(s.bufs[1 - s.back].claims))
  {
    hide Apply, Run, CanRun, BufInv, Emit, Visible;
    CloseSteps(s);
    ThreeSteps(s, WriteDown, Swap, WriteDown);
  }

  lemma ThreeSteps(s: State, a: Action, b: Action, c: Action)
    requires Enabled(s, a) && Enabled(Apply(s, a), b) && Enabled(Apply(Apply(s, a), b), c)
    ensures CanRun(s, [a, b, c]) && Run(s, [a, b, c]) == Apply(Apply(Apply(s, a), b), c)
  {
    hide Apply, Enabled;
    assert [a, b, c][1..] == [b, c] && [b, c][1..] == [c] && [c][1..] == [];
    var s2 := Apply(Apply(s, a), b);
    assert CanRun(s2, [c]) && Run(s2, [c]) == Apply(s2, c);
    assert CanRun(Apply(s, a), [b, c]) && Run(Apply(s, a), [b, c]) == Run(s2, [c]);
  }

  /** Once a claim has been refused, `used` stays past the end: until the buffer is written
      down a further claim is refused exactly when it does not overflow. */
  lemma RefusedUntilWriteDown(s: State, b: nat, n: nat, m: nat)
    requires Inv(s) && Enabled(s, Reserve(b, n)) && m < WORD
    requires Apply(s, Reserve(b, n)).claimFailures > s.claimFailures
    ensures var r := Apply(s, Reserve(b, n));
            && r.bufs[b].claims == s.bufs[b].claims && r.bufs[b].used >= 0
            && (Claiming(r, b, m).claimFailures == r.claimFailures + 1 <==> !Overflows(r.bufs[b].used, m, r.size))
  {
  }

  /** A claim of size 0 hides everything after it: its zero size word ends the walk, so
      a finalized chunk that follows it is never written. */
  lemma EmptyClaimHidesRest(before: seq<Claim>, empty: Claim, after: seq<Claim>)
    requires empty.size == 0
    ensures Visible(before + [empty] + after) == Visible(before)
  {
    var all := before + [empty] + after;
    if before != [] && before[0].size != 0 {
      assert all[0] == before[0] && all[1..] == before[1..] + [empty] + after;
      EmptyClaimHidesRest(before[1..], empty, after);
    }
  }

  // ----- one thread's whole claim, and an empty one before it

  /** What a thread does to write `w` as claim `k` of buffer `b`. */
  function Cycle(b: nat, k: nat, w: seq<byte>): (acts: seq<Action>)
    ensures |acts| == 5
  {
    [Reserve(b, |w|), PutSize(b, k), PutLength(b, k), Fill(b, k, 0, w), Finalize(b, k, |w|)]
  }

  /** `r` is `s` with one more claim on buffer `b`. */
  predicate Extends(s: State, r: State, b: nat, c: Claim) {
    && Inv(r) && b < 2 && |s.bufs| == 2 && r.size == s.size && r.back == s.back && r.output == s.output
    && r.unfinalized == s.unfinalized
    && r.bufs[1 - b] == s.bufs[1 - b]
    && r.bufs[b].claims == s.bufs[b].claims + [c] && r.bufs[b].used == c.off + HEADER + c.size
  }

  lemma LastClaim(s: State, r: State, b: nat, c: Claim)
    requires Extends(s, r, b, c)
    ensures HasClaim(r, b, |s.bufs[b].claims|) && r.bufs[b].claims[|s.bufs[b].claims|] == c && |c.data| == c.size
  {
    assert ClaimOk(r.bufs[b].bytes, r.bufs[b].claims[|s.bufs[b].claims|]);
  }

  lemma SizeStep(s: State, r: State, b: nat, c: Claim)
    requires Extends(s, r, b, c) && c.phase == Reserved
    ensures var a := PutSize(b, |s.bufs[b].claims|);
            Enabled(r, a) && Extends(s, Apply(r, a), b, c.(phase := Sized))
  {
    hide BufInv, Emit, Visible;
    LastClaim(s, r, b, c);
    StepKeepsInv(r, PutSize(b, |s.bufs[b].claims|));
  }

  lemma LengthStep(s: State, r: State, b: nat, c: Claim)
    requires Extends(s, r, b, c) && c.phase == Sized
    ensures var a := PutLength(b, |s.bufs[b].claims|);
            Enabled(r, a) && Extends(s, Apply(r, a), b, c.(phase := Open))
  {
    hide BufInv, Emit, Visible;
    LastClaim(s, r, b, c);
    StepKeepsInv(r, PutLength(b, |s.bufs[b].claims|));
  }

  lemma FillStep(s: State, r: State, b: nat, c: Claim, w: seq<byte>)
    requires Extends(s, r, b, c) && c.phase == Open && |w| == c.size
    ensures var a := Fill(b, |s.bufs[b].claims|, 0, w);
            Enabled(r, a) && Extends(s, Apply(r, a), b, c.(data := w))
  {
    hide BufInv, Emit, Visible;
    LastClaim(s, r, b, c);
    assert Splice(c.data, 0, w) == w;
    StepKeepsInv(r, Fill(b, |s.bufs[b].claims|, 0, w));
  }

  lemma FinalizeStep(s: State, r: State, b: nat, c: Claim)
    requires Extends(s, r, b, c) && c.phase == Open
    ensures var a := Finalize(b, |s.bufs[b].claims|, c.size);
            Enabled(r, a) && Extends(s, Apply(r, a), b, c.(phase := Final(c.size)))
  {
    hide BufInv, Emit, Visible;
    var k := |s.bufs[b].claims|;
    LastClaim(s, r, b, c);
    StepKeepsInv(r, Finalize(b, k, c.size));
    FinalizeSucceedsIff(r, b, k, c.size);
  }

  lemma ReserveStep(s: State, b: nat, n: nat)
    requires Inv(s) && b < 2 && s.bufs[b].used == End(s.bufs[b].claims) && s.bufs[b].used + n + HEADER <= s.size
    ensures Enabled(s, Reserve(b, n))
    ensures Extends(s, Apply(s, Reserve(b, n)), b,
                    Claim(s.bufs[b].used, n, Reserved, Payload(s.bufs[b].bytes, s.bufs[b].used, n)))
  {
    hide BufInv, Emit, Visible;
    StepKeepsInv(s, Reserve(b, n));
  }

  lemma RunCons(s: State, a: Action, rest: seq<Action>)
    requires Enabled(s, a) && CanRun(Apply(s, a), rest)
    ensures CanRun(s, [a] + rest) && Run(s, [a] + rest) == Run(Apply(s, a), rest)
  {
    hide Apply, Enabled;
    assert ([a] + rest)[1..] == rest;
  }

  lemma {:induction false} RunConcat(s: State, acts: seq<Action>, more: seq<Action>)
    requires CanRun(s, acts) && CanRun(Run(s, acts), more)
    ensures CanRun(s, acts + more) && Run(s, acts + more) == Run(Run(s, acts), more)
    decreases |acts|
  {
    hide Apply, Enabled;
    if acts == [] {
      assert acts + more == more;
    } else {
      RunConcat(Apply(s, acts[0]), acts[1..], more);
      RunCons(s, acts[0], acts[1..] + more);
      assert [acts[0]] + (acts[1..] + more) == acts + more;
    }
  }

  /** The first four steps: the claim is filled but not finalized. */
  lemma CycleOpens(s: State, b: nat, w: seq<byte>)
    requires Inv(s) && b < 2 && s.bufs[b].used == End(s.bufs[b].claims) && s.bufs[b].used + |w| + HEADER <= s.size
    ensures CanRun(s, Cycle(b, |s.bufs[b].claims|, w)[..4])
    ensures Extends(s, Run(s, Cycle(b, |s.bufs[b].claims|, w)[..4]), b, Claim(s.bufs[b].used, |w|, Open, w))
  {
    hide Apply, Enabled, CanRun, Run, BufInv, Extends, Payload, EmitAll;
    var k, n := |s.bufs[b].claims|, |w|;
    var c := Claim(s.bufs[b].used, n, Reserved, Payload(s.bufs[b].bytes, s.bufs[b].used, n));
    ReserveStep(s, b, n);
    var s1 := Apply(s, Reserve(b, n));
    SizeStep(s, s1, b, c);
    var s2 := Apply(s1, PutSize(b, k));
    LengthStep(s, s2, b, c.(phase := Sized));
    var s3 := Apply(s2, PutLength(b, k));
    FillStep(s, s3, b, c.(phase := Open), w);
    ThreeSteps(s1, PutSize(b, k), PutLength(b, k), Fill(b, k, 0, w));
    RunCons(s, Reserve(b, n), [PutSize(b, k), PutLength(b, k), Fill(b, k, 0, w)]);
    assert [Reserve(b, n)] + [PutSize(b, k), PutLength(b, k), Fill(b, k, 0, w)] == Cycle(b, k, w)[..4];
  }

  /** A claim that fits, filled and finalized by its thread, ends up holding its bytes. */
  lemma CycleFinalizes(s: State, b: nat, w: seq<byte>)
    requires Inv(s) && b < 2 && s.bufs[b].used == End(s.bufs[b].claims) && s.bufs[b].used + |w| + HEADER <= s.size
    ensures CanRun(s, Cycle(b, |s.bufs[b].claims|, w))
    ensures Extends(s, Run(s, Cycle(b, |s.bufs[b].claims|, w)), b, Claim(s.bufs[b].used, |w|, Final(|w|), w))
  {
    hide Apply, Enabled, CanRun, Run, BufInv, Extends, Payload, EmitAll;
    var k, n := |s.bufs[b].claims|, |w|;
    CycleOpens(s, b, w);
    var s4 := Run(s, Cycle(b, k, w)[..4]);
    FinalizeStep(s, s4, b, Claim(s.bufs[b].used, n, Open, w));
    RunOne(s4, Finalize(b, k, n));
    RunConcat(s, Cycle(b, k, w)[..4], [Finalize(b, k, n)]);
    assert Cycle(b, k, w)[..4] + [Finalize(b, k, n)] == Cycle(b, k, w);
  }

  lemma RunOne(s: State, a: Action)
    requires Enabled(s, a)
    ensures CanRun(s, [a]) && Run(s, [a]) == Apply(s, a)
  {
    hide Apply, Enabled;
    var rest := [a][1..];
    assert rest == [] && CanRun(Apply(s, a), rest) && Run(Apply(s, a), rest) == Apply(s, a);
  }

  /** After a swap, the written-down buffer is the one just filled. */
  lemma SwapAndWrite(s: State)
    requires Inv(s) && HeadersWritten(s.bufs[1 - s.back])
    ensures CanRun(s, [Swap, WriteDown])
    ensures Run(s, [Swap, WriteDown]).output == s.output + Emit(Visible(s.bufs[1 - s.back].claims))
    ensures Run(s, [Swap, WriteDown]).unfinalized == s.unfinalized + Unfinalized(Visible(s.bufs[1 - s.back].claims))
  {
    hide Emit, Visible, BufInv, Walk;
    var t := Apply(s, Swap);
    StepKeepsInv(s, Swap);
    WriteDownEmits(t);
    assert [WriteDown][1..] == [] && CanRun(t, [WriteDown]) && Run(t, [WriteDown]) == Apply(t, WriteDown);
    RunCons(s, Swap, [WriteDown]);
    assert [Swap] + [WriteDown] == [Swap, WriteDown];
  }

  // ----- a batch of log lines, from claim to file

  /** A line to be logged, by a thread that finalizes it in time or not. */
  datatype Job = Job(w: seq<byte>, done: bool)

  function Need(jobs: seq<Job>): nat {
    if jobs == [] then 0 else Need(jobs[..|jobs| - 1]) + |jobs[|jobs| - 1].w| + HEADER
  }

  function Steps(jobs: seq<Job>): seq<Action> {
    if jobs == [] then []
    else
      var k := |jobs| - 1;
      Steps(jobs[..k]) + if jobs[k].done then Cycle(0, k, jobs[k].w) else Cycle(0, k, jobs[k].w)[..4]
  }

  function ClaimsOf(jobs: seq<Job>): (cs: seq<Claim>)
    ensures |cs| == |jobs|
  {
    if jobs == [] then []
    else
      var k := |jobs| - 1;
      var w := jobs[k].w;
      ClaimsOf(jobs[..k]) + [Claim(Need(jobs[..k]), |w|, if jobs[k].done then Final(|w|) else Open, w)]
  }

  /** The lines that were finalized, in order, and the number of the others. */
  function Lines(jobs: seq<Job>): seq<seq<byte>> {
    if jobs == [] then []
    else Lines(jobs[..|jobs| - 1]) + if jobs[|jobs| - 1].done then [jobs[|jobs| - 1].w] else []
  }

  function Late(jobs: seq<Job>): nat {
    if jobs == [] then 0 else Late(jobs[..|jobs| - 1]) + if jobs[|jobs| - 1].done then 0 else 1
  }

  lemma {:induction false} JobsRun(s: State, jobs: seq<Job>)
    requires Inv(s) && s.bufs[0].claims == [] && s.bufs[0].used == 0 && Need(jobs) <= s.size
    ensures CanRun(s, Steps(jobs))
    ensures var r := Run(s, Steps(jobs));
            && Inv(r) && r.size == s.size && r.back == s.back && r.output == s.output && r.unfinalized == s.unfinalized
            && r.bufs[1] == s.bufs[1] && r.bufs[0].claims == ClaimsOf(jobs) && r.bufs[0].used == Need(jobs)
    decreases |jobs|
  {
    hide Apply, Enabled, CanRun, Run, BufInv, Cycle, EmitAll;
    if jobs == [] {
      RunNothing(s);
    } else {
      var k := |jobs| - 1;
      var w := jobs[k].w;
      JobsRun(s, jobs[..k]);
      var r := Run(s, Steps(jobs[..k]));
      UsedAtEnd(r.bufs[0], r.size);
      var more := if jobs[k].done then Cycle(0, k, w) else Cycle(0, k, w)[..4];
      if jobs[k].done { CycleFinalizes(r, 0, w); } else { CycleOpens(r, 0, w); }
      RunConcat(s, Steps(jobs[..k]), more);
    }
  }

  lemma RunNothing(s: State)
    ensures CanRun(s, []) && Run(s, []) == s
  {
  }

  lemma UsedAtEnd(f: Buf, size: nat)
    requires BufInv(f, size) && f.used <= size
    ensures f.used == End(f.claims)
  {
  }

  lemma EmitSnoc(cs: seq<Claim>, c: Claim)
    ensures Emit(cs + [c]) == Emit(cs) + EmitOne(c)
    ensures Unfinalized(cs + [c]) == Unfinalized(cs) + OpenOne(c)
  {
    if cs == [] {
      assert [] + [c] == [c] && [c][1..] == [];
    } else {
      EmitSnoc(cs[1..], c);
      assert (cs + [c])[1..] == cs[1..] + [c];
    }
  }

  lemma {:induction false} JobsEmit(jobs: seq<Job>)
    requires forall i :: 0 <= i < |jobs| ==> jobs[i].w != []
    ensures Visible(ClaimsOf(jobs)) == ClaimsOf(jobs) && Emit(ClaimsOf(jobs)) == Lines(jobs)
    ensures Unfinalized(ClaimsOf(jobs)) == Late(jobs)
    ensures forall i :: 0 <= i < |jobs| ==> ClaimsOf(jobs)[i].size > 0 && !ClaimsOf(jobs)[i].phase.Reserved?
                                            && !ClaimsOf(jobs)[i].phase.Sized?
  {
    hide Emit, EmitOne, Unfinalized;
    if jobs == [] {
      NothingEmitted();
    } else {
      var k := |jobs| - 1;
      JobsEmit(jobs[..k]);
      var cs := ClaimsOf(jobs[..k]);
      var c := ClaimsOf(jobs)[k];
      EmitSnoc(cs, c);
      OneEmitted(c);
    }
  }

  lemma NothingEmitted()
    ensures Emit([]) == [] && Unfinalized([]) == 0
  {
  }

  lemma OneEmitted(c: Claim)
    requires c.size == |c.data| > 0
    ensures c.phase == Final(c.size) ==> EmitOne(c) == [c.data]
    ensures c.phase == Open ==> EmitOne(c) == []
  {
    assert c.data[..|c.data|] == c.data;
  }

  /** Any number of nonempty lines that fit the buffer, some finalized in time and some not:
      after a swap and a write-down the file has got exactly the finalized ones, whole and in
      the order of their claims, and the others are counted. */
  lemma LinesWritten(s: State, jobs: seq<Job>)
    requires Init(s) && Need(jobs) <= s.size && forall i :: 0 <= i < |jobs| ==> jobs[i].w != []
    ensures CanRun(s, Steps(jobs) + [Swap, WriteDown])
    ensures var r := Run(s, Steps(jobs) + [Swap, WriteDown]); r.output == Lines(jobs) && r.unfinalized == Late(jobs)
  {
    hide CanRun, Run, BufInv, Emit, Visible, Unfinalized, ClaimsOf;
    InitInv(s);
    JobsRun(s, jobs);
    var r := Run(s, Steps(jobs));
    JobsEmit(jobs);
    SwapAndWrite(r);
    RunConcat(s, Steps(jobs), [Swap, WriteDown]);
  }

  /** One byte claimed, finalized and written down comes out; with an empty claim before it,
      the same byte is lost. */
  lemma FinalizedClaimLost(s: State, x: byte)
    requires Init(s) && s.size >= 17
    ensures var acts := Cycle(0, 0, [x]) + [Swap, WriteDown]; CanRun(s, acts) && Run(s, acts).output == [[x]]
    ensures var acts := Cycle(0, 0, []) + Cycle(0, 1, [x]) + [Swap, WriteDown];
            CanRun(s, acts) && Run(s, acts).output == []
  {
    hide CanRun, Run, Cycle, BufInv;
    InitInv(s);
    CycleFinalizes(s, 0, [x]);
    var r := Run(s, Cycle(0, 0, [x]));
    SwapAndWrite(r);
    RunConcat(s, Cycle(0, 0, [x]), [Swap, WriteDown]);
    OneByteOut(r.bufs[0].claims, x);
    CycleFinalizes(s, 0, []);
    var t := Run(s, Cycle(0, 0, []));
    CycleFinalizes(t, 0, [x]);
    var u := Run(t, Cycle(0, 1, [x]));
    SwapAndWrite(u);
    RunConcat(s, Cycle(0, 0, []), Cycle(0, 1, [x]));
    RunConcat(s, Cycle(0, 0, []) + Cycle(0, 1, [x]), [Swap, WriteDown]);
    VisibleStops(u.bufs[0].claims);
  }

  lemma OneByteOut(cs: seq<Claim>, x: byte)
    requires cs == [Claim(0, 1, Final(1), [x])]
    ensures Emit(Visible(cs)) == [[x]]
  {
    VisibleUnfold(cs[0], []);
    EmitCons(cs[0], []);
    assert [cs[0]] + [] == cs && [x][..1] == [x];
  }

  // ----- the class itself

  lemma HeaderWords(f: Buf, size: nat, i: nat)
    requires BufInv(f, size) && i < |f.claims| && (f.claims[i].phase.Open? || f.claims[i].phase.Final?)
    ensures var c := f.claims[i];
            && c.off + HEADER <= |f.bytes| && c.size < size
            && U32(f.bytes, c.off) == c.size
            && (U32(f.bytes, c.off + 4) == INFINITE <==> c.phase.Open?)
  {
    assert ClaimOk(f.bytes, f.claims[i]);
  }

  /** The casts and sums of the capacity test, in 32-bit `int`. */
  function IntCast(n: nat): int { AsInt(n) }
  function IntAdd(x: int, y: int): int
    requires x + y >= -2 * WORD
  {
    AsInt(x + y + 2 * WORD)
  }

  /** The test compares the very value that `used` now has. */
  lemma TestIsUsed(used: nat, n: nat)
    requires used < 0x8000_0000 && n < WORD
    ensures IntAdd(IntAdd(used, IntCast(n)), HEADER) == AsInt(used + n + HEADER)
  {
    hide AsInt;
    var a := AsInt(n);
    AsIntMod(n);
    AsIntMod(used + a + 2 * WORD);
    var b := AsInt(used + a + 2 * WORD);
    AsIntSame(b + HEADER + 2 * WORD, used + n + HEADER);
  }

  /** The cast changes a value by whole words, at most one down from a word. */
  lemma AsIntMod(x: nat)
    ensures (AsInt(x) - x) % WORD == 0 && AsInt(x) >= -0x8000_0000
  {
    var y := x % WORD;
    assert x == WORD * (x / WORD) + y;
    Arith.DivModUnique(AsInt(x) - x, WORD, if y < 0x8000_0000 then -(x / WORD) else -(x / WORD) - 1, 0);
  }

  lemma AsIntSame(x: nat, y: nat)
    requires (x - y) % WORD == 0
    ensures AsInt(x) == AsInt(y)
  {
    var q := (x - y) / WORD;
    assert x == y + WORD * q;
    Arith.ModShift(y, WORD, q);
  }

  class WriteBuf {
    var pBuf: array<byte>
    var used: int

    constructor (size: nat)
      ensures fresh(pBuf) && pBuf[..] == Zeros(size) && used == 0
    {
      pBuf := new byte[size](_ => 0);
      used := 0;
    }
  }

  method StoreWord(a: array<byte>, off: nat, x: nat)
    requires off + 4 <= a.Length
    modifies a
    ensures a[..] == Splice(old(a[..]), off, W32(x))
  {
    var w := W32(x);
    a[off], a[off + 1], a[off + 2], a[off + 3] := w[0], w[1], w[2], w[3];
  }

  method ClearBytes(a: array<byte>)
    modifies a
    ensures a[..] == Zeros(a.Length)
  {
    forall k | 0 <= k < a.Length { a[k] := 0; }
  }

  method LoadWord(a: array<byte>, off: nat) returns (x: nat)
    requires off + 4 <= a.Length
    ensures x == U32(a[..], off)
  {
    x := a[off] as int + 256 * a[off + 1] as int + 0x1_0000 * a[off + 2] as int + 0x100_0000 * a[off + 3] as int;
  }

  /** The header walk of _WriteDownBackBuffer as a loop over the raw buffer contents. */
  method WalkChunks(bytes: seq<byte>, pend: int) returns (payloads: seq<seq<byte>>, open: nat)
    requires pend <= |bytes| - HEADER
    ensures payloads == Walk(bytes, 0, pend).0 && open == Walk(bytes, 0, pend).1
  {
    hide Walk, Visit;
    var p := 0;
    payloads, open := [], 0;
    ghost var all := Walk(bytes, 0, pend);
    while p < pend
      invariant p <= |bytes|
      invariant all.0 == payloads + Walk(bytes, p, pend).0
      invariant all.1 == open + Walk(bytes, p, pend).1
      decreases |bytes| - p
    {
      var n, length := U32(bytes, p), U32(bytes, p + 4);
      WalkLast(bytes, p, pend);
      if n == 0 { break; }
      var here := Visit(bytes, p, length);
      ghost var before := payloads;
      payloads, open := payloads + here.0, open + here.1;
      if p + HEADER + n > |bytes| { break; }   // the next header lies past the end
      WalkUnfold(bytes, p, pend);
      p := p + HEADER + n;
      assert before + (here.0 + Walk(bytes, p, pend).0) == payloads + Walk(bytes, p, pend).0;
    }
    if p >= pend { WalkOver(bytes, p, pend); }
  }

  class Writer {
    const size: nat
    var frontBuf: WriteBuf
    var backBuf: WriteBuf
    var written: seq<seq<byte>>   // what the actual writer received
    var claimed: nat
    var claimFailures: nat
    var finalizeFailures: nat
    var unfinalized: nat

    ghost predicate Separate()
      reads this, frontBuf, backBuf
    {
      frontBuf != backBuf && frontBuf.pBuf != backBuf.pBuf
    }

    ghost predicate Models(s: State)
      reads this, frontBuf, backBuf, frontBuf.pBuf, backBuf.pBuf
    {
      && Separate() && |s.bufs| == 2 && s.back < 2 && size == s.size
      && backBuf.pBuf[..] == s.bufs[s.back].bytes && backBuf.used == s.bufs[s.back].used
      && frontBuf.pBuf[..] == s.bufs[1 - s.back].bytes && frontBuf.used == s.bufs[1 - s.back].used
      && written == s.output && claimed == s.claimed && claimFailures == s.claimFailures
      && finalizeFailures == s.finalizeFailures && unfinalized == s.unfinalized
    }

    constructor (bufferSize: nat)
      requires bufferSize <= 0x7fff_fffc
      ensures exists s :: Init(s) && Models(s) && s.size == (bufferSize + 3) / 4 * 4
    {
      size := (bufferSize + 3) / 4 * 4;
      var f := new WriteBuf((bufferSize + 3) / 4 * 4);
      var b := new WriteBuf((bufferSize + 3) / 4 * 4);
      frontBuf, backBuf := f, b;
      written, claimed, claimFailures, finalizeFailures, unfinalized := [], 0, 0, 0, 0;
      new;
      ghost var e := Buf(Zeros(size), 0, []);
      ghost var s := State(size, [e, e], 1, [], 0, 0, 0, 0, []);
      assert Init(s) && Models(s);
    }

    /** ClaimWriting up to the capacity test: the chunk offset, when the test passes. */
    method Reserve(ghost s: State, n: nat) returns (chunk: nat, ok: bool)
      requires Models(s) && Inv(s) && n < WORD
      modifies this`claimed, this`claimFailures, frontBuf`used
      ensures s.bufs[1 - s.back].used >= 0 && Models(Claiming(s, 1 - s.back, n))
      ensures var cs := Claiming(s, 1 - s.back, n).bufs[1 - s.back].claims;
              var before := s.bufs[1 - s.back].claims;
              if ok then |cs| == |before| + 1 && cs[|before|].off == chunk && cs[|before|].size == n
              else cs == before
    {
      chunk := frontBuf.used;
      frontBuf.used := AsInt(frontBuf.used + n + HEADER);
      claimed := claimed + 1;
      ok := IntAdd(IntAdd(chunk, IntCast(n)), HEADER) <= size;
      TestIsUsed(chunk, n);
      if !ok { claimFailures := claimFailures + 1; }
    }

    /** The buffer a claim was made on: a swap may have moved it to the back since. */
    ghost predicate IsBuf(s: State, b: nat, buf: WriteBuf)
      reads this
    {
      b < 2 && buf == if b == s.back then backBuf else frontBuf
    }

    /** ClaimWriting, the two header stores. */
    method StoreSize(ghost s: State, ghost b: nat, ghost i: nat, buf: WriteBuf, chunk: nat, n: nat)
      requires Models(s) && Inv(s) && Enabled(s, PutSize(b, i)) && IsBuf(s, b, buf)
      requires var c := s.bufs[b].claims[i]; c.off == chunk && c.size == n
      modifies buf.pBuf
      ensures Models(Apply(s, PutSize(b, i)))
    {
      hide Inv, Splice, W32, U32;
      StoreWord(buf.pBuf, chunk, n);
    }

    method StoreInfinite(ghost s: State, ghost b: nat, ghost i: nat, buf: WriteBuf, chunk: nat)
      requires Models(s) && Inv(s) && Enabled(s, PutLength(b, i)) && IsBuf(s, b, buf)
      requires s.bufs[b].claims[i].off == chunk
      modifies buf.pBuf
      ensures Models(Apply(s, PutLength(b, i)))
    {
      hide Inv, Splice, W32, U32;
      StoreWord(buf.pBuf, chunk + 4, INFINITE);
    }

    /** The test of FinalizeWritten reads the raw header; it passes exactly on an open
        claim with room for `len` bytes. */
    method MayFinalize(ghost f: Buf, ghost i: nat, buf: WriteBuf, chunk: nat, len: nat) returns (accept: bool)
      requires buf.pBuf[..] == f.bytes && BufInv(f, size) && i < |f.claims| && f.claims[i].off == chunk
      requires f.claims[i].phase.Open? || f.claims[i].phase.Final?
      ensures accept <==> f.claims[i].phase.Open? && len <= f.claims[i].size
    {
      HeaderWords(f, size, i);
      var n := LoadWord(buf.pBuf, chunk);
      var length := LoadWord(buf.pBuf, chunk + 4);
      accept := len <= n && length == INFINITE && n < size;
    }

    method FinalizeWritten(ghost s: State, ghost b: nat, ghost i: nat, buf: WriteBuf, chunk: nat, len: nat)
      requires Models(s) && Inv(s) && Enabled(s, Finalize(b, i, len)) && IsBuf(s, b, buf)
      requires s.bufs[b].claims[i].off == chunk
      modifies this`finalizeFailures, buf.pBuf
      ensures Models(Apply(s, Finalize(b, i, len)))
    {
      hide BufInv, ClaimOk, Splice, W32, U32, EmitAll, UnfinalizedAll;
      var accept := MayFinalize(s.bufs[b], i, buf, chunk, len);
      FinalizeSucceedsIff(s, b, i, len);
      if accept {
        StoreWord(buf.pBuf, chunk + 4, len);
      } else {
        finalizeFailures := finalizeFailures + 1;
      }
    }

    method WriteDownBackBuffer(ghost s: State)
      requires Models(s) && Inv(s) && Enabled(s, WriteDown)
      modifies this`written, this`unfinalized, backBuf, backBuf.pBuf
      ensures Models(Apply(s, WriteDown))
      ensures written == old(written) + Emit(Visible(s.bufs[s.back].claims))
    {
      hide BufInv, Walk, Emit, Visible;
      WriteDownEmits(s);
      WalkFindsAll(s.bufs[s.back], s.size);
      var last := backBuf.pBuf.Length - HEADER;
      var payloads, open := WalkChunks(backBuf.pBuf[..], if backBuf.used < last then backBuf.used else last);
      written := written + payloads;
      unfinalized := unfinalized + open;
      backBuf.used := 0;
      ClearBytes(backBuf.pBuf);
    }

    method Swap(ghost s: State)
      requires Models(s)
      modifies this`frontBuf, this`backBuf
      ensures Models(Apply(s, Action.Swap))
    {
      frontBuf, backBuf := backBuf, frontBuf;
    }
  }
}
