/** ProducerConsumerQueue with its real fields: 32-bit wrapping counters and a
    capacity rounded to a power of two. Each method is one atomic access of the
    original and refines the action of the same name in MpscQueue. */
module MpscQueueImpl {
  import opened Arith
  import opened Bytes
  import opened MpscQueue

  /** The C++ cast of a 32-bit unsigned value to INT. */
  function AsInt(x: nat): int
    requires x < WORD
  {
    if x < 0x8000_0000 then x else x - WORD
  }

  /** `x & mask` and `x & ~mask` for a mask of low bits (`mask + 1` a power of two). */
  function LowBits(x: nat, mask: nat): nat { x % (mask + 1) }
  function HighBits(x: nat, mask: nat): nat { x - LowBits(x, mask) }

  ghost predicate IsPow2(n: nat) { exists k: nat :: Pow2(k) == n }

  ghost predicate IsLeastPow2(n: nat, c: nat) {
    IsPow2(n) && c <= n && forall m: nat :: IsPow2(m) && c <= m ==> n <= m
  }

  lemma BetweenPowers(c: nat, k: nat)
    requires Pow2(k) < c <= Pow2(k + 1)
    ensures IsLeastPow2(Pow2(k + 1), c)
  {
    forall m: nat | IsPow2(m) && c <= m
      ensures Pow2(k + 1) <= m
    {
      var j: nat :| Pow2(j) == m;
      if j <= k { Pow2Monotone(j, k); assert false; }
      Pow2Monotone(k + 1, j);
    }
  }

  lemma ExactPower(k: nat)
    ensures IsLeastPow2(Pow2(k), Pow2(k))
  {
    assert IsPow2(Pow2(k));
  }

  lemma NotBetweenPowers(n: nat, k: nat)
    requires Pow2(k) < n < Pow2(k + 1)
    ensures !IsPow2(n)
  {
    forall j: nat
      ensures Pow2(j) != n
    {
      if j <= k { Pow2Monotone(j, k); } else { Pow2Monotone(k + 1, j); }
    }
  }

  lemma LeadingBit(c: nat, k: nat)
    requires Pow2(k) <= c < 2 * Pow2(k)
    ensures LowBits(c, Pow2(k) - 1) == c - Pow2(k)
  {
    DivModUnique(c, Pow2(k), 1, c - Pow2(k));
  }

  lemma NoHighBits(c: nat, k: nat)
    ensures HighBits(c, Pow2(k) - 1) == 0 <==> c < Pow2(k)
  {
    if c < Pow2(k) { DivModUnique(c, Pow2(k), 0, c); }
  }

  /** The rounding loop of Reset on a nonzero request. */
  method RoundCapacity(request: nat) returns (capacity: nat)
    requires 0 < request < WORD
    ensures capacity < WORD && (request <= Pow2(30) ==> capacity > 0)
    ensures request <= Pow2(31) <==> IsLeastPow2(capacity, if request < 2 then 2 else request)
    ensures request <= Pow2(30) ==> exists k: nat :: k <= 30 && Pow2(k) == capacity
  {
    hide Pow2, IsLeastPow2, HighBits, LowBits;
    Pow2Values();
    capacity := if request < 2 then 2 else request;
    ghost var c := capacity;
    var mask := 0x3fff_ffff;
    var i := 0;
    while i < 30
      invariant 0 <= i <= 30
      invariant capacity == c
      invariant mask == Pow2(30 - i) - 1
      invariant i > 0 ==> c < Pow2(31 - i)
    {
      NoHighBits(c, 30 - i);
      if HighBits(capacity, mask) != 0 {
        if LowBits(capacity, mask) != 0 {
          capacity := (2 * HighBits(capacity, mask)) % WORD;
        } else {
          capacity := HighBits(capacity, mask);
        }
        RoundedUp(c, 30 - i, capacity);
        return;
      }
      Pow2Step(29 - i);
      mask := mask / 2;
      i := i + 1;
    }
    Pow2Step(0);
    assert false;
  }

  lemma RoundedUp(c: nat, k: nat, n: nat)
    requires 2 <= c < WORD && k <= 30 && Pow2(k) <= c && (k < 30 ==> c < Pow2(k + 1))
    requires n == if LowBits(c, Pow2(k) - 1) != 0 then (2 * HighBits(c, Pow2(k) - 1)) % WORD
                  else HighBits(c, Pow2(k) - 1)
    ensures n < WORD
    ensures c <= Pow2(31) <==> IsLeastPow2(n, c)
    ensures c <= Pow2(30) ==> exists j: nat :: j <= 30 && Pow2(j) == n
  {
    hide Pow2, IsLeastPow2;
    Pow2Values();
    Pow2Step(k);
    if c <= 2 * Pow2(k) {
      if c < 2 * Pow2(k) { LeadingBit(c, k); } else { DivModUnique(c, Pow2(k), 2, 0); }
      Pow2Monotone(k, 30);
      if c == Pow2(k) { ExactPower(k); } else { SmallRoundedUp(c, k, n); }
    } else {
      TooLarge(c, n);
    }
  }

  lemma SmallRoundedUp(c: nat, k: nat, n: nat)
    requires Pow2(k) < c <= Pow2(k + 1) && k <= 30 && n == Pow2(k + 1)
    ensures IsLeastPow2(n, c) && c <= Pow2(31)
    ensures c <= Pow2(30) ==> exists j: nat :: j <= 30 && Pow2(j) == n
  {
    hide Pow2, IsLeastPow2;
    BetweenPowers(c, k);
    Pow2Monotone(k + 1, 31);
  }

  /** Above 2^31 no 32-bit value is a power of two that is large enough. */
  lemma TooLarge(c: nat, n: nat)
    requires Pow2(31) < c < WORD && n < WORD
    ensures !IsLeastPow2(n, c)
  {
    hide Pow2, IsPow2;
    Pow2Values();
    if c <= n { NotBetweenPowers(n, 31); }
  }

  /** Two counters less than a word apart keep their distance when truncated. */
  lemma TruncatedDistance(h: nat, t: nat)
    requires h <= t < h + WORD
    ensures t % WORD == (if h % WORD + (t - h) < WORD then h % WORD + (t - h) else h % WORD + (t - h) - WORD)
  {
  }

  lemma TruncatedSlot(t: nat, k: nat)
    requires k <= 30
    ensures LowBits(t % WORD, Pow2(k) - 1) == Slot(Pow2(k), t)
  {
    Pow2Values();
    ModPow2(t, k, 32);
  }

  lemma IncrementTruncated(t: nat)
    ensures (t % WORD + 1) % WORD == (t + 1) % WORD
  {
  }

  /** Produce_Begin's slot, from the incremented 32-bit tail. */
  function PositionOf(newTail: nat, mask: nat): nat { LowBits((newTail + WORD - 1) % WORD, mask) }

  lemma TicketPosition(t: nat, k: nat)
    requires k <= 30
    ensures PositionOf((t + 1) % WORD, Pow2(k) - 1) == Slot(Pow2(k), t)
  {
    assert ((t + 1) % WORD + WORD - 1) % WORD == t % WORD;
    TruncatedSlot(t, k);
  }

  /** _SizeInConsumerView on the 32-bit fields. */
  function ViewSize(h: nat, t: nat, cap: nat): nat {
    if t >= h then t - h else (cap + WORD + t - h) % WORD
  }

  /** The size the consumer sees is nonzero exactly when the ring is not empty, and the
      true size unless the tail has wrapped past the head, when it is too large by `cap`. */
  lemma ViewSizeExact(h: nat, t: nat, cap: nat)
    requires h <= t <= h + cap && cap <= 0x4000_0000
    ensures var size := ViewSize(h % WORD, t % WORD, cap);
            && (size != 0 <==> h != t)
            && size == if t % WORD >= h % WORD then t - h else t - h + cap
  {
    TruncatedDistance(h, t);
  }

  /** The state Reset leaves behind, with whatever the slots contain. */
  function InitState<V>(data: seq<V>): State<V> {
    State(|data|, 0, 0, 0, data, seq(|data|, _ => false), map[], Consumer<V>.Idle, [], [])
  }

  lemma InitStateInit<V>(data: seq<V>)
    ensures Init(InitState(data))
  {
  }

  lemma BusyConsumer<V(!new)>(s: State<V>)
    requires Inv(s) && !s.consumer.Idle?
    ensures s.cap > 0 && |s.data| == |s.fin| == s.cap
  {
  }

  /** What ReadValue is about to read. */
  lemma HeadAccepted<V(!new)>(s: State<V>)
    requires Inv(s) && Enabled(s, ReadValue) && s.cap > 0
    ensures Slot(s.cap, s.head) < |s.data| && s.head < |s.accepted|
    ensures s.data[Slot(s.cap, s.head)] == s.accepted[s.head]
  {
    ConsumerReadKeepsInv(s, ReadValue);
    SlotBound(s.cap);
  }

  class ProducerConsumerQueue<V(0,!new)> {
    var indexMask: nat
    var buf: array<V>
    var bufFin: array<bool>
    var count: int
    var head: nat
    var tail: nat

    /** The fields are those of abstract state `s`, counters modulo 2^32. */
    ghost predicate Models(s: State<V>)
      reads this, buf, bufFin
    {
      && buf as object != bufFin
      && buf[..] == s.data && bufFin[..] == s.fin && buf.Length == bufFin.Length == s.cap
      && count == s.count && head == s.head % WORD && tail == s.tail % WORD
      && (s.cap > 0 ==> indexMask == s.cap - 1 && exists k: nat :: k <= 30 && Pow2(k) == s.cap)
    }

    constructor ()
      ensures buf.Length == 0 && Models(InitState(buf[..])) && Init(InitState(buf[..])) && fresh(buf) && fresh(bufFin)
    {
      indexMask, count, head, tail := 0, 0, 0, 0;
      buf := new V[0];
      bufFin := new bool[0];
      new;
      assert bufFin[..] == [];
      InitStateInit(buf[..]);
    }

    /** A request up to 2^30 gives an initial state; up to 2^31 the capacity is still the least
        power of two that is large enough. */
    method Reset(request: nat)
      requires request < WORD
      modifies this
      ensures fresh(buf) && fresh(bufFin) && buf.Length == bufFin.Length
      ensures count == 0 && head == 0 && tail == 0 && forall i :: 0 <= i < bufFin.Length ==> !bufFin[i]
      ensures request <= 0x4000_0000 ==> Models(InitState(buf[..])) && Init(InitState(buf[..]))
      ensures request == 0 ==> buf.Length == 0
      ensures request != 0 ==>
                (request <= 0x8000_0000 <==> IsLeastPow2(buf.Length, if request < 2 then 2 else request))
    {
      hide Pow2, IsLeastPow2;
      Pow2Values();
      count, head, tail := 0, 0, 0;
      var capacity := 0;
      if request != 0 {
        capacity := RoundCapacity(request);
        indexMask := (capacity + WORD - 1) % WORD;
      }
      buf := new V[capacity];
      bufFin := new bool[capacity](_ => false);
      assert bufFin[..] == seq(capacity, _ => false);
      InitStateInit(buf[..]);
    }

    /** Produce_Begin, first atomic access: count, and decide. */
    method ProduceCount(ghost s: State<V>, ghost p: nat, ghost x: V) returns (admitted: bool, first: bool)
      requires Models(s) && Inv(s) && Enabled(s, Count(p, x)) && |s.producers| < 0x3fff_ffff
      modifies this`count
      ensures Models(Apply(s, Count(p, x)))
      ensures admitted <==> Apply(s, Count(p, x)).producers[p].Admitted?
      ensures first <==> AdmittedSet(s) + RejectedSet(s) == {} && s.head == s.tail && Undecremented(s) == 0
    {
      CountBounded(s);
      CapBounded(s);
      count := if count == 0x7fff_ffff then -0x8000_0000 else count + 1;
      first := count == 1;
      admitted := count <= AsInt(buf.Length);
    }

    /** Produce_Begin on a full ring: take the count back. */
    method ProduceUndo(ghost s: State<V>, ghost p: nat)
      requires Models(s) && Enabled(s, Undo(p))
      modifies this`count
      ensures Models(Apply(s, Undo(p)))
    {
      count := count - 1;
    }

    /** Produce_Begin, second atomic access: draw a ticket; its slot is free. */
    method ProduceTicket(ghost s: State<V>, ghost p: nat) returns (pos: nat)
      requires Models(s) && Inv(s) && Enabled(s, Ticket(p))
      modifies this`tail
      ensures Models(Apply(s, Ticket(p)))
      ensures pos == Slot(s.cap, s.tail) && pos < bufFin.Length && !bufFin[pos]
    {
      hide Inv, Pow2, PositionOf, LowBits, Slot;
      RoomForTicket(s, p);
      SlotBound(s.cap);
      ghost var k: nat :| k <= 30 && Pow2(k) == s.cap;
      IncrementTruncated(s.tail);
      TicketPosition(s.tail, k);
      tail := (tail + 1) % WORD;
      pos := PositionOf(tail, indexMask);
    }

    method ProduceFill(ghost s: State<V>, ghost p: nat, pos: nat, x: V)
      requires Models(s) && Inv(s) && Enabled(s, Fill(p))
      requires pos == Slot(s.cap, s.producers[p].t) && x == s.producers[p].x
      modifies buf
      ensures Models(Apply(s, Fill(p)))
    {
      SlotBound(s.cap);
      buf[pos] := x;
    }

    method ProduceFinish(ghost s: State<V>, ghost p: nat, pos: nat)
      requires Models(s) && Inv(s) && Enabled(s, Finish(p)) && pos == Slot(s.cap, s.producers[p].t)
      modifies bufFin
      ensures Models(Apply(s, Finish(p)))
      ensures !old(bufFin[pos])
    {
      SlotBound(s.cap);
      assert Holds(s, p, s.producers[p].t);
      bufFin[pos] := true;
    }

    method SizeInConsumerView(ghost s: State<V>) returns (size: nat)
      requires Models(s) && Inv(s)
      ensures size != 0 <==> Apply(s.(consumer := Idle), ReadSize).consumer.Sized?
      ensures size != 0 <==> |s.consumed| < |s.accepted|
      ensures size == if s.tail % WORD >= s.head % WORD then s.tail - s.head else s.tail - s.head + s.cap
    {
      assert s.head <= s.tail <= s.head + s.cap;
      CapBounded(s);
      hide Pow2, Inv, Counting, ViewSize;
      ViewSizeExact(s.head, s.tail, s.cap);
      size := ViewSize(head, tail, buf.Length);
    }

    /** Head(), second half: is the head slot finished? */
    method HeadFinished(ghost s: State<V>) returns (ready: bool)
      requires Models(s) && Inv(s) && Enabled(s, ReadFlag)
      ensures ready <==> Apply(s, ReadFlag).consumer.Ready?
      ensures ready <==> forall p :: !Holds(s, p, s.head)
    {
      hide Inv, Pow2, LowBits, Slot;
      BusyConsumer(s);
      FlagSeen(s);
      HeadSlot(s);
      ready := bufFin[LowBits(head, indexMask)];
    }

    method HeadValue(ghost s: State<V>) returns (v: V)
      requires Models(s) && Inv(s) && Enabled(s, ReadValue)
      ensures Apply(s, ReadValue).consumer == Holding(v)
      ensures v == s.accepted[s.head]
    {
      hide Inv, Pow2, LowBits, Slot;
      BusyConsumer(s);
      HeadSlot(s);
      HeadAccepted(s);
      v := buf[LowBits(head, indexMask)];
    }

    method ConsumeClear(ghost s: State<V>)
      requires Models(s) && Inv(s) && Enabled(s, ClearFlag)
      modifies bufFin
      ensures Models(Apply(s, ClearFlag))
    {
      hide Inv, Pow2, LowBits, Slot;
      BusyConsumer(s);
      HeadSlot(s);
      bufFin[LowBits(head, indexMask)] := false;
    }

    method ConsumeAdvance(ghost s: State<V>)
      requires Models(s) && Enabled(s, Advance)
      modifies this`head
      ensures Models(Apply(s, Advance))
    {
      IncrementTruncated(s.head);
      head := (head + 1) % WORD;
    }

    /** The count left is never negative; it is the value Consume tests for "more". */
    method ConsumeDecrement(ghost s: State<V>) returns (more: bool)
      requires Models(s) && Inv(s) && Enabled(s, Decrement)
      modifies this`count
      ensures Models(Apply(s, Decrement)) && count >= 0
      ensures more <==> AdmittedSet(s) + RejectedSet(s) != {} || s.head != s.tail
    {
      count := count - 1;
      more := count != 0;
    }

    /** The masked head is the slot of ticket number head. */
    lemma HeadSlot(s: State<V>)
      requires Models(s) && s.cap > 0
      ensures LowBits(head, indexMask) == Slot(s.cap, s.head) < s.cap
    {
      hide Pow2, LowBits, Slot;
      var k: nat :| k <= 30 && Pow2(k) == s.cap;
      TruncatedSlot(s.head, k);
      SlotBound(s.cap);
    }

    lemma CapBounded(s: State<V>)
      requires Models(s)
      ensures s.cap <= Pow2(30) == 0x4000_0000
    {
      Pow2Values();
      if s.cap > 0 {
        var k: nat :| k <= 30 && Pow2(k) == s.cap;
        Pow2Monotone(k, 30);
      }
    }

    lemma CountBounded(s: State<V>)
      requires Models(s) && Inv(s) && |s.producers| < 0x3fff_ffff
      ensures 0 <= s.count < 0x7fff_ffff
    {
      CapBounded(s);
      assert RejectedSet(s) <= s.producers.Keys;
      SubsetCard(RejectedSet(s), s.producers.Keys);
    }
  }

  lemma {:induction false} SubsetCard<T>(a: set<T>, b: set<T>)
    requires a <= b
    ensures |a| <= |b|
  {
    assert b == a + (b - a);
  }

  /** A request above 2^30 leaves a queue that admits nobody: the capacity 2^31 is
      negative as an INT, so every Produce_Begin finds its count too high. */
  lemma HugeCapacityAdmitsNobody(capacity: nat, count: int)
    requires Pow2(31) <= capacity < WORD && count >= 1
    ensures count > AsInt(capacity)
  {
    Pow2Values();
  }
}
