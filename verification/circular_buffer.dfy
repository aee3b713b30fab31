/** CircularBuffer of core/rt/buffer_type.h: blocks of different sizes, each behind a
    header of three words (Next, PayloadSize, PayloadLength), in one byte buffer that is
    reused from the start when the end is reached. */
module CircularBuffer {
  import opened Bytes

  const HEAD: nat := 24
  const INFINITE: nat := 0xffff_ffff
  const SPAN: nat := 0x1_0000_0000_0000_0000   // SIZE_T has 64 bits

  datatype Block = Block(off: nat, size: nat)

  /** The object's fields, with the queue of live blocks and the index in it of the first
      block pushed after a wraparound (the number of blocks when there is none). */
  datatype Ring = Ring(mem: seq<byte>, back: nat, newBlock: nat, last: int, blocks: seq<Block>, wrap: nat)

  function End(b: Block): nat { b.off + HEAD + b.size }

  // ----- operations

  /** Push's choice: behind the newest block, or at the start of the buffer. */
  predicate FitsBehind(r: Ring, n: nat) {
    || (n + r.newBlock < |r.mem| && r.newBlock >= r.back)
    || (n + r.newBlock < r.back && r.newBlock < r.back)
  }

  predicate FitsAtStart(r: Ring, n: nat) { r.newBlock >= r.back && r.back > n }

  predicate CanPush(r: Ring, size: nat) { FitsBehind(r, HEAD + size) || FitsAtStart(r, HEAD + size) }

  function Place(r: Ring, size: nat): nat {
    if FitsBehind(r, HEAD + size) then r.newBlock else 0
  }

  function NewWrap(r: Ring, size: nat): nat {
    if !FitsBehind(r, HEAD + size) then |r.blocks|
    else if r.wrap == |r.blocks| then |r.blocks| + 1
    else r.wrap
  }

  function Header(size: nat): (w: seq<byte>)
    ensures |w| == HEAD
  {
    W64(INFINITE) + W64(size) + W64(0)
  }

  /** `size` is the requested size already enlarged to the alignment. */
  function Push(r: Ring, size: nat): (r': Ring)
    requires CanPush(r, size) && Place(r, size) + HEAD + size <= |r.mem|
    requires r.last + 8 <= |r.mem|
  {
    var p := Place(r, size);
    var mem := Splice(r.mem, p, Header(size));
    Ring(if r.last >= 0 then Splice(mem, r.last, W64(p)) else mem,
         r.back, p + HEAD + size, p, r.blocks + [Block(p, size)], NewWrap(r, size))
  }

  function Pop(r: Ring): (r': Ring)
    requires r.back + 8 <= |r.mem| || r.back == r.newBlock
  {
    if r.back == r.newBlock || r.blocks == [] then r
    else if r.back == r.last then Ring(r.mem, 0, 0, -1, [], 0)
    else Ring(r.mem, U64(r.mem, r.back), r.newBlock, r.last, r.blocks[1..],
              if r.wrap <= 1 then |r.blocks| - 1 else r.wrap - 1)
  }

  // ----- invariant

  function NextOf(blocks: seq<Block>, i: nat): nat
    requires i < |blocks|
  {
    if i + 1 < |blocks| then blocks[i + 1].off else INFINITE
  }

  predicate HeaderOk(mem: seq<byte>, b: Block, next: nat) {
    && End(b) <= |mem| && U64(mem, b.off) == next && U64(mem, b.off + 8) == b.size
    && U64(mem, b.off + 16) <= b.size
  }

  predicate Headers(r: Ring) {
    forall i {:trigger NextOf(r.blocks, i)} ::
      0 <= i < |r.blocks| ==> HeaderOk(r.mem, r.blocks[i], NextOf(r.blocks, i))
  }

  /** Blocks before the wrap lie in order from `back` up, blocks after it in order from 0
      up to `newBlock`, which stays below `back`. */
  predicate Shape(r: Ring) {
    |r.mem| < INFINITE && r.wrap <= |r.blocks| && InOrder(r.blocks, r.wrap) && Bounded(r) && Anchored(r)
  }

  predicate InOrder(blocks: seq<Block>, wrap: nat) {
    forall i, j :: 0 <= i < j < |blocks| && (j < wrap || wrap <= i) ==> End(blocks[i]) <= blocks[j].off
  }

  predicate Bounded(r: Ring)
    requires r.wrap <= |r.blocks|
  {
    && (forall i :: 0 <= i < r.wrap ==> r.back <= r.blocks[i].off && End(r.blocks[i]) <= |r.mem|)
    && (forall i :: r.wrap <= i < |r.blocks| ==> End(r.blocks[i]) <= r.newBlock)
  }

  predicate Anchored(r: Ring) {
    if r.blocks == [] then r.back == r.newBlock == 0 && r.last == -1
    else
      var newest := r.blocks[|r.blocks| - 1];
      && r.back == r.blocks[0].off && r.last == newest.off && r.newBlock == End(newest) && r.wrap >= 1
      && (r.wrap < |r.blocks| ==> r.newBlock < r.back && r.blocks[r.wrap].off == 0)
  }

  predicate Inv(r: Ring) { Shape(r) && Headers(r) }

  /** Two blocks share no byte. */
  predicate Apart(a: Block, b: Block) { End(a) <= b.off || End(b) <= a.off }

  lemma LiveApart(r: Ring, i: nat, j: nat)
    requires Shape(r) && i < j < |r.blocks|
    ensures Apart(r.blocks[i], r.blocks[j]) && End(r.blocks[i]) <= |r.mem| && End(r.blocks[j]) <= |r.mem|
  {
    if i < r.wrap <= j { assert End(r.blocks[j]) <= r.newBlock < r.back <= r.blocks[i].off; }
    if r.wrap <= i { assert r.newBlock < r.back == r.blocks[0].off; assert End(r.blocks[0]) <= |r.mem|; }
  }

  lemma InBounds(r: Ring, i: nat)
    requires Shape(r) && i < |r.blocks|
    ensures End(r.blocks[i]) <= |r.mem|
  {
    if i > 0 { LiveApart(r, 0, i); }
  }

  /** `back == newBlock` exactly when nothing is live. */
  lemma EmptyIff(r: Ring)
    requires Shape(r)
    ensures r.back == r.newBlock <==> r.blocks == []
  {
    if r.blocks != [] && r.wrap == |r.blocks| {
      assert r.back <= r.blocks[|r.blocks| - 1].off;
    }
  }

  /** The place Push chooses is inside the buffer and overlaps no live block. */
  lemma PlaceIsFree(r: Ring, size: nat, i: nat)
    requires Shape(r) && CanPush(r, size) && i < |r.blocks|
    ensures Apart(r.blocks[i], Block(Place(r, size), size))
  {
    var n := |r.blocks|;
    if i < n - 1 { assert r.wrap == n || r.wrap <= i ==> End(r.blocks[i]) <= r.blocks[n - 1].off; }
  }

  lemma PlaceInBuffer(r: Ring, size: nat)
    requires Shape(r) && CanPush(r, size)
    ensures Place(r, size) + HEAD + size < |r.mem| && r.last + 8 <= |r.mem|
  {
    if r.blocks != [] {
      InBounds(r, 0);
      InBounds(r, |r.blocks| - 1);
    }
  }

  lemma PushKeepsOrder(r: Ring, size: nat)
    requires Shape(r) && CanPush(r, size)
    ensures InOrder(r.blocks + [Block(Place(r, size), size)], NewWrap(r, size))
  {
    var n := |r.blocks|;
    var bs := r.blocks + [Block(Place(r, size), size)];
    forall i, j | 0 <= i < j < |bs| && (j < NewWrap(r, size) || NewWrap(r, size) <= i)
      ensures End(bs[i]) <= bs[j].off
    {
      if j == n {
        assert i < n - 1 ==> End(r.blocks[i]) <= r.blocks[n - 1].off;
      }
    }
  }

  lemma PushKeepsBounds(r: Ring, size: nat)
    requires Shape(r) && CanPush(r, size) && Place(r, size) + HEAD + size < |r.mem| && r.last + 8 <= |r.mem|
    ensures NewWrap(r, size) <= |r.blocks| + 1 && Bounded(Push(r, size)) && Anchored(Push(r, size))
  {
    hide W64, Header, Splice, InOrder;
  }

  lemma PushKeepsShape(r: Ring, size: nat)
    requires Shape(r) && CanPush(r, size) && Place(r, size) + HEAD + size < |r.mem| && r.last + 8 <= |r.mem|
    ensures Shape(Push(r, size))
  {
    hide W64, Header, Splice, InOrder, Bounded, Anchored, Place, NewWrap, FitsBehind, FitsAtStart;
    PushKeepsOrder(r, size);
    PushKeepsBounds(r, size);
  }

  // ----- headers and contents

  /** Everything of a block except its Next word: sizes and payload bytes. */
  predicate Kept(before: seq<byte>, after: seq<byte>, b: Block) {
    End(b) <= |before| == |after| && after[b.off + 8..End(b)] == before[b.off + 8..End(b)]
  }

  lemma HeaderFrame(mem: seq<byte>, off: nat, w: seq<byte>, b: Block, next: nat)
    requires HeaderOk(mem, b, next) && off + |w| <= |mem| && (off + |w| <= b.off || End(b) <= off)
    ensures HeaderOk(Splice(mem, off, w), b, next) && Kept(mem, Splice(mem, off, w), b)
  {
    hide U64;
    U64Frame(mem, off, w, b.off);
    U64Frame(mem, off, w, b.off + 8);
    U64Frame(mem, off, w, b.off + 16);
    SpliceOutside(mem, off, w, b.off + 8, End(b));
  }

  lemma HeaderIs(size: nat)
    ensures Header(size) == W64(INFINITE) + W64(size) + W64(0)
  {
  }

  lemma HeaderWritten(mem: seq<byte>, p: nat, size: nat)
    requires p + HEAD + size <= |mem| < INFINITE
    ensures HeaderOk(Splice(mem, p, Header(size)), Block(p, size), INFINITE)
    ensures U64(Splice(mem, p, Header(size)), p + 16) == 0
  {
    hide U64, W64;
    var m1 := Splice(mem, p, W64(INFINITE));
    var m2 := Splice(m1, p + 8, W64(size));
    var m3 := Splice(m2, p + 16, W64(0));
    SpliceTwice(mem, p, W64(INFINITE), W64(size));
    SpliceTwice(mem, p, W64(INFINITE) + W64(size), W64(0));
    HeaderIs(size);
    U64Written(mem, p, INFINITE);
    U64Written(m1, p + 8, size);
    U64Written(m2, p + 16, 0);
    U64Frame(m1, p + 8, W64(size), p);
    U64Frame(m2, p + 16, W64(0), p);
    U64Frame(m2, p + 16, W64(0), p + 8);
  }

  lemma NextWritten(mem: seq<byte>, b: Block, next: nat, p: nat)
    requires HeaderOk(mem, b, next) && p < INFINITE
    ensures HeaderOk(Splice(mem, b.off, W64(p)), b, p) && Kept(mem, Splice(mem, b.off, W64(p)), b)
  {
    hide U64, W64;
    U64Written(mem, b.off, p);
    U64Frame(mem, b.off, W64(p), b.off + 8);
    U64Frame(mem, b.off, W64(p), b.off + 16);
    SpliceOutside(mem, b.off, W64(p), b.off + 8, End(b));
  }

  /** What Push does to live block `i`: only the newest one changes, in its Next word. */
  lemma PushKeepsBlock(r: Ring, size: nat, i: nat)
    requires Inv(r) && CanPush(r, size) && Place(r, size) + HEAD + size < |r.mem| && r.last + 8 <= |r.mem|
    requires i < |r.blocks|
    ensures HeaderOk(Push(r, size).mem, r.blocks[i], NextOf(Push(r, size).blocks, i))
    ensures Kept(r.mem, Push(r, size).mem, r.blocks[i])
  {
    hide U64, W64, Header, Splice, HeaderOk, Kept, InOrder, Bounded, FitsBehind, FitsAtStart;
    var b, p, n := r.blocks[i], Place(r, size), |r.blocks|;
    var next := NextOf(r.blocks, i);
    assert HeaderOk(r.mem, b, next);
    PlaceIsFree(r, size, i);
    var mem := Splice(r.mem, p, Header(size));
    HeaderFrame(r.mem, p, Header(size), b, next);
    if i == n - 1 {
      NextWritten(mem, b, next, p);
    } else {
      LiveApart(r, i, n - 1);
      HeaderFrame(mem, r.last, W64(p), b, next);
    }
    KeptTwice(r.mem, mem, Splice(mem, r.last, W64(p)), b);
  }

  lemma KeptTwice(m1: seq<byte>, m2: seq<byte>, m3: seq<byte>, b: Block)
    requires Kept(m1, m2, b) && Kept(m2, m3, b)
    ensures Kept(m1, m3, b)
  {
  }

  lemma PushWritesHeader(r: Ring, size: nat)
    requires Inv(r) && CanPush(r, size) && Place(r, size) + HEAD + size < |r.mem| && r.last + 8 <= |r.mem|
    ensures HeaderOk(Push(r, size).mem, Block(Place(r, size), size), INFINITE)
    ensures U64(Push(r, size).mem, Place(r, size) + 16) == 0
  {
    hide U64, W64, Header;
    var p, n := Place(r, size), |r.blocks|;
    var mem := Splice(r.mem, p, Header(size));
    HeaderWritten(r.mem, p, size);
    if n > 0 {
      PlaceIsFree(r, size, n - 1);
      HeaderFrame(mem, r.last, W64(p), Block(p, size), INFINITE);
      U64Frame(mem, r.last, W64(p), p + 16);
    }
  }

  /** Push appends one block to the queue, with no length yet, and leaves the contents of all
      live blocks. */
  lemma PushEnqueues(r: Ring, size: nat)
    requires Inv(r) && CanPush(r, size)
    ensures Place(r, size) + HEAD + size < |r.mem| && r.last + 8 <= |r.mem|
    ensures var r' := Push(r, size);
            && Inv(r') && r'.blocks == r.blocks + [Block(Place(r, size), size)]
            && U64(r'.mem, Place(r, size) + 16) == 0
            && forall i :: 0 <= i < |r.blocks| ==> Kept(r.mem, r'.mem, r.blocks[i])
  {
    hide Shape, Header, W64, U64, Splice, HeaderOk, FitsBehind, FitsAtStart;
    PlaceInBuffer(r, size);
    PushKeepsShape(r, size);
    PushWritesHeader(r, size);
    var r', n := Push(r, size), |r.blocks|;
    forall i | 0 <= i < |r'.blocks|
      ensures HeaderOk(r'.mem, r'.blocks[i], NextOf(r'.blocks, i))
    {
      if i < n { PushKeepsBlock(r, size, i); }
    }
    forall i | 0 <= i < n
      ensures Kept(r.mem, r'.mem, r.blocks[i])
    {
      PushKeepsBlock(r, size, i);
    }
  }

  /** Where the block goes: right behind the newest one if the run of free bytes there is longer
      than it, up to the end of the buffer or to the oldest block; else to the start. */
  lemma PlacedBehindIff(r: Ring, size: nat)
    requires Shape(r) && CanPush(r, size)
    ensures r.wrap == |r.blocks| ==> Place(r, size) == if |r.mem| - r.newBlock > 24 + size then r.newBlock else 0
    ensures r.wrap < |r.blocks| ==> Place(r, size) == r.newBlock && r.back - r.newBlock > 24 + size
  {
    EmptyIff(r);
  }

  /** Push is refused exactly when no free run of bytes is longer than the block: the runs
      behind the newest block and before the oldest, or the gap between them. */
  lemma RefusedExactlyWhenFull(r: Ring, size: nat)
    requires Shape(r)
    ensures !CanPush(r, size) <==>
            var n := HEAD + size;
            if r.wrap == |r.blocks| then |r.mem| - r.newBlock <= n && r.back <= n
            else r.back - r.newBlock <= n
  {
    EmptyIff(r);
  }

  // ----- the test as it is written, in 64 bits

  function BlockSize(size: nat): nat { (HEAD + size) % SPAN }

  predicate AcceptedBehind(r: Ring, size: nat) {
    var sum := (BlockSize(size) + r.newBlock) % SPAN;
    (sum < |r.mem| && r.newBlock >= r.back) || (sum < r.back && r.newBlock < r.back)
  }

  predicate Accepted(r: Ring, size: nat) { AcceptedBehind(r, size) || FitsAtStart(r, BlockSize(size)) }

  /** Accepted although it does not fit: a sum has left 64 bits. */
  predicate Oversized(r: Ring, size: nat) { HEAD + size + r.newBlock >= SPAN && Accepted(r, size) }

  /** The test accepts exactly what fits unless the request is oversized; no request is whose
      end behind the newest block is below 2^64. */
  lemma AcceptedIff(r: Ring, size: nat)
    requires Shape(r) && size < SPAN
    ensures (Accepted(r, size) <==> CanPush(r, size)) <==> !Oversized(r, size)
    ensures HEAD + size + r.newBlock < SPAN ==> (AcceptedBehind(r, size) <==> FitsBehind(r, HEAD + size))
    ensures HEAD + size + r.newBlock >= SPAN ==> !CanPush(r, size)
  {
    hide InOrder, Anchored;
    BackBound(r);
    if HEAD + size + r.newBlock < SPAN {
      assert BlockSize(size) == HEAD + size;
    }
  }

  lemma SmallBlock(size: nat)
    requires HEAD + size < SPAN
    ensures BlockSize(size) == HEAD + size
  {
  }

  lemma BackBound(r: Ring)
    requires Shape(r)
    ensures r.back <= |r.mem| && r.newBlock <= |r.mem|
  {
    EmptyIff(r);
    if r.blocks != [] {
      InBounds(r, 0);
      InBounds(r, |r.blocks| - 1);
    }
  }

  /** A request of 2^64 - 24 bytes is accepted by every ring that is not filled to its last
      byte. */
  lemma HugeRequestAccepted(r: Ring)
    requires Shape(r) && r.newBlock < |r.mem|
    ensures Oversized(r, SPAN - HEAD)
  {
    assert BlockSize(SPAN - HEAD) == 0;
  }

  /** Pop drops the oldest block and nothing else. */
  lemma PopDequeues(r: Ring)
    requires Inv(r)
    ensures r.back + 8 <= |r.mem| || r.back == r.newBlock
    ensures var r' := Pop(r);
            && Inv(r') && r'.mem == r.mem
            && r'.blocks == if r.blocks == [] then [] else r.blocks[1..]
  {
    EmptyIff(r);
    if r.blocks != [] {
      InBounds(r, 0);
      assert HeaderOk(r.mem, r.blocks[0], NextOf(r.blocks, 0));
      var n := |r.blocks|;
      if n > 1 {
        LiveApart(r, 0, n - 1);
        PopKeepsShape(r);
        hide Shape, HeaderOk;
        var r' := Pop(r);
        forall i | 0 <= i < |r'.blocks|
          ensures HeaderOk(r'.mem, r'.blocks[i], NextOf(r'.blocks, i))
        {
          assert NextOf(r'.blocks, i) == NextOf(r.blocks, i + 1);
        }
      }
    }
  }

  lemma PopKeepsShape(r: Ring)
    requires Inv(r) && |r.blocks| > 1 && r.back + 8 <= |r.mem| && r.back != r.last && r.back != r.newBlock
    ensures Shape(Pop(r))
  {
    hide Shape, U64;
    assert HeaderOk(r.mem, r.blocks[0], NextOf(r.blocks, 0));
    EmptyIff(r);
    OldestAtBack(r);
    DropKeepsShape(r, Pop(r));
  }

  lemma OldestAtBack(r: Ring)
    requires Shape(r) && r.blocks != []
    ensures r.back == r.blocks[0].off
  {
  }

  /** The same without the headers. */
  lemma DropKeepsShape(r: Ring, r': Ring)
    requires Shape(r) && |r.blocks| > 1
    requires r' == Ring(r.mem, r.blocks[1].off, r.newBlock, r.last, r.blocks[1..],
                        if r.wrap <= 1 then |r.blocks| - 1 else r.wrap - 1)
    ensures Shape(r')
  {
    forall i | 0 <= i < |r'.blocks|
      ensures r'.blocks[i] == r.blocks[i + 1]
      ensures i < r'.wrap ==> r'.back <= r'.blocks[i].off
    {
      assert r'.blocks[i] == r.blocks[i + 1];
      assert i > 0 && (i + 1 < r.wrap || r.wrap <= 1) ==> End(r.blocks[1]) <= r.blocks[i + 1].off;
    }
    forall i | 0 <= i < r'.wrap
      ensures End(r'.blocks[i]) <= |r'.mem|
    {
      InBounds(r, i + 1);
    }
  }

  // ----- the Next chain

  /** Offsets met when following Next from `p`, `n` blocks long. */
  function Chain(mem: seq<byte>, p: nat, n: nat): seq<nat>
    decreases n
  {
    if n == 0 || p + 8 > |mem| then [] else [p] + Chain(mem, U64(mem, p), n - 1)
  }

  function Offsets(blocks: seq<Block>): seq<nat> {
    seq(|blocks|, i requires 0 <= i < |blocks| => blocks[i].off)
  }

  /** Following Next from the oldest block lists the live blocks in push order. */
  lemma {:induction false} ChainListsBlocks(r: Ring, i: nat)
    requires Inv(r) && i <= |r.blocks|
    ensures var p := if i < |r.blocks| then r.blocks[i].off else INFINITE;
            Chain(r.mem, p, |r.blocks| - i) == Offsets(r.blocks[i..])
    decreases |r.blocks| - i
  {
    hide Shape, U64;
    if i < |r.blocks| {
      InBounds(r, i);
      assert HeaderOk(r.mem, r.blocks[i], NextOf(r.blocks, i));
      ChainListsBlocks(r, i + 1);
      assert Offsets(r.blocks[i..]) == [r.blocks[i].off] + Offsets(r.blocks[i + 1..]);
    }
  }

  // ----- the class

  class Buffer {
    var mem: array<byte>
    var back: nat
    var newBlock: nat
    var last: int                // offset of the newest block, -1 for none
    ghost var blocks: seq<Block>
    ghost var wrap: nat

    ghost function View(): Ring
      reads this, mem
    {
      Ring(mem[..], back, newBlock, last, blocks, wrap)
    }

    constructor (size: nat)
      requires size < INFINITE
      ensures Inv(View()) && blocks == [] && fresh(mem) && mem.Length == size
    {
      mem := new byte[size](_ => 0);
      back, newBlock, last := 0, 0, -1;
      blocks, wrap := [], 0;
    }

    /** The offset of the new payload, or -1. `size` is the enlarged request. What is written
        for an oversized request lies partly outside the buffer and is not modelled. */
    method PushBlock(size: nat) returns (payload: int)
      requires Inv(View()) && size < SPAN
      modifies this, mem
      ensures payload >= 0 <==> Accepted(old(View()), size)
      ensures payload < 0 ==> View() == old(View())
      ensures !Oversized(old(View()), size) ==>
                && Inv(View()) && mem == old(mem) && (payload >= 0 <==> CanPush(old(View()), size))
                && (payload >= 0 ==>
                      && payload >= HEAD && blocks == old(blocks) + [Block(payload - HEAD, size)]
                      && payload <= mem.Length && U64(mem[..], payload - 8) == 0
                      && forall i :: 0 <= i < |old(blocks)| ==> Kept(old(mem[..]), mem[..], blocks[i]))
    {
      hide Shape, Headers, U64, W64;
      ghost var r := View();
      AcceptedIff(r, size);
      var n := BlockSize(size);
      var sum := (n + newBlock) % SPAN;
      var p;
      if (sum < mem.Length && newBlock >= back) || (sum < back && newBlock < back) {
        p := newBlock;
      } else if newBlock >= back && back > n {
        p := 0;
      } else {
        return -1;
      }
      payload := p + HEAD;
      if HEAD + size + newBlock < SPAN {
        SmallBlock(size);
        PushEnqueues(r, size);
        LinkBlock(p, size);
      }
    }

    /** Writing the header at the place found, and linking it to the block before. */
    method LinkBlock(p: nat, size: nat)
      requires CanPush(View(), size) && p == Place(View(), size)
      requires p + HEAD + size < mem.Length && last + 8 <= mem.Length
      modifies this, mem
      ensures View() == Push(old(View()), size) && mem == old(mem)
    {
      hide U64, W64, Header;
      ghost var r := View();
      HeaderIs(size);
      newBlock := p + HEAD + size;
      Store(mem, p, Header(size));
      if last >= 0 { Store(mem, last, W64(p)); }
      last := p;
      blocks, wrap := blocks + [Block(p, size)], NewWrap(r, size);
    }

    method PopBlock()
      requires Inv(View())
      modifies this
      ensures Inv(View()) && mem == old(mem)
      ensures blocks == if old(blocks) == [] then [] else old(blocks)[1..]
    {
      hide Shape, Headers;
      ghost var r := View();
      PopDequeues(r);
      EmptyIff(r);
      if back != newBlock {
        if back == last {
          last, newBlock, back := -1, 0, 0;
          blocks, wrap := [], 0;
        } else {
          back := U64(mem[..], back);
          blocks, wrap := blocks[1..], if wrap <= 1 then |blocks| - 1 else wrap - 1;
        }
      }
      assert View() == Pop(r);
    }

    /** SetBlockSize on live block `i`: its length word and nothing else. */
    method SetBlockSize(ghost i: nat, payload: nat, finalized: nat)
      requires Inv(View()) && i < |blocks| && payload == blocks[i].off + HEAD && 0 < finalized <= blocks[i].size
      modifies mem
      ensures Inv(View())
      ensures forall j :: 0 <= j < |blocks| && j != i ==> Kept(old(mem[..]), mem[..], blocks[j])
      ensures End(blocks[i]) <= mem.Length && U64(mem[..], payload - 8) == finalized
      ensures mem[..][payload..End(blocks[i])] == old(mem[..])[payload..End(blocks[i])]
    {
      hide Shape, Headers, U64, W64, Kept;
      ghost var r := View();
      SizeBound(r);
      InBounds(r, i);
      SetLength(r, i, finalized);
      Store(mem, payload - 8, W64(finalized));
    }

    /** Peek: length and payload of the oldest block, once it has been finalized. */
    method Peek() returns (found: bool, length: nat, data: seq<byte>)
      requires Inv(View())
      ensures blocks != [] ==> End(blocks[0]) <= mem.Length
      ensures found <==> blocks != [] && U64(mem[..], blocks[0].off + 16) > 0
      ensures found ==>
                && length <= blocks[0].size && length == U64(mem[..], blocks[0].off + 16)
                && data == mem[blocks[0].off + HEAD..blocks[0].off + HEAD + length]
    {
      ghost var r := View();
      EmptyIff(r);
      hide U64;
      found, length, data := false, 0, [];
      if back != newBlock {
        InBounds(r, 0);
        assert HeaderOk(r.mem, r.blocks[0], NextOf(r.blocks, 0));
        length := U64(mem[..], back + 16);
        if length > 0 {
          found := true;
          data := mem[back + HEAD..back + HEAD + length];
        }
      }
    }
  }

  lemma SetLengthBlock(r: Ring, i: nat, n: nat, j: nat)
    requires Inv(r) && i < |r.blocks| && j < |r.blocks|
    requires n <= r.blocks[i].size && End(r.blocks[i]) <= |r.mem| < INFINITE
    ensures var mem := Splice(r.mem, r.blocks[i].off + 16, W64(n));
            HeaderOk(mem, r.blocks[j], NextOf(r.blocks, j)) && (j != i ==> Kept(r.mem, mem, r.blocks[j]))
  {
    hide U64, W64;
    var off := r.blocks[i].off + 16;
    assert HeaderOk(r.mem, r.blocks[j], NextOf(r.blocks, j));
    if j == i {
      U64Frame(r.mem, off, W64(n), off - 16);
      U64Frame(r.mem, off, W64(n), off - 8);
      U64Written(r.mem, off, n);
    } else {
      if j < i { LiveApart(r, j, i); } else { LiveApart(r, i, j); }
      HeaderFrame(r.mem, off, W64(n), r.blocks[j], NextOf(r.blocks, j));
    }
  }

  lemma SizeBound(r: Ring)
    requires Inv(r)
    ensures |r.mem| < INFINITE
  {
  }

  lemma ShapeOfMem(r: Ring, mem: seq<byte>)
    requires Shape(r) && |mem| == |r.mem|
    ensures Shape(r.(mem := mem))
  {
  }

  lemma SetLength(r: Ring, i: nat, n: nat)
    requires Inv(r) && i < |r.blocks| && n <= r.blocks[i].size && End(r.blocks[i]) <= |r.mem| < INFINITE
    ensures var mem := Splice(r.mem, r.blocks[i].off + 16, W64(n));
            && Inv(r.(mem := mem)) && U64(mem, r.blocks[i].off + 16) == n
            && mem[r.blocks[i].off + HEAD..End(r.blocks[i])] == r.mem[r.blocks[i].off + HEAD..End(r.blocks[i])]
            && forall j :: 0 <= j < |r.blocks| && j != i ==> Kept(r.mem, mem, r.blocks[j])
  {
    hide U64, W64, Shape, HeaderOk, Kept;
    var off := r.blocks[i].off + 16;
    var mem := Splice(r.mem, off, W64(n));
    U64Written(r.mem, off, n);
    SpliceOutside(r.mem, off, W64(n), off + 8, End(r.blocks[i]));
    ShapeOfMem(r, mem);
    forall j | 0 <= j < |r.blocks|
      ensures HeaderOk(mem, r.blocks[j], NextOf(r.blocks, j))
      ensures j != i ==> Kept(r.mem, mem, r.blocks[j])
    {
      SetLengthBlock(r, i, n, j);
    }
  }
}
