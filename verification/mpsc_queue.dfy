/** The lock-free multi-producer / single-consumer ring of core/os/multi_thread.h,
    as a step system: every atomic counter update, flag write and shared read is
    one action, and actions of any number of producers and of the one consumer
    interleave freely (sequential consistency).

    Tickets are counted without bound here; module MpscQueueImpl shows that the
    32-bit fields of the class do the same. */
module MpscQueue {
  import opened Arith

  /** A producer inside Produce; a producer not in the map is outside it. */
  datatype Producer<V> =
    | Admitted(x: V)           // counted, within capacity, no ticket yet
    | Rejected                 // counted beyond capacity, decrement pending
    | Ticketed(t: nat, x: V)   // owns ticket t, slot not written yet
    | Written(t: nat, x: V)    // slot written, finished flag still 0

  datatype Consumer<V> =
    | Idle
    | Sized                    // Head() saw a nonzero size
    | Ready                    // Head() saw the finished flag
    | Holding(v: V)            // the slot has been read
    | Cleared(v: V)            // Consume() cleared the flag
    | Advanced                 // Consume() advanced _Head, _Count not yet decremented

  /** `accepted` (values in ticket order) and `consumed` (values popped) are
      histories; the other fields are the queue's memory and the threads' places. */
  datatype State<V> = State(
    cap: nat, count: int, head: nat, tail: nat, data: seq<V>, fin: seq<bool>,
    producers: map<nat, Producer<V>>, consumer: Consumer<V>,
    accepted: seq<V>, consumed: seq<V>)

  datatype Action<V> =
    | Count(p: nat, x: V) | Undo(p: nat) | Ticket(p: nat) | Fill(p: nat) | Finish(p: nat)
    | ReadSize | ReadFlag | ReadValue | Release | ClearFlag | Advance | Decrement

  function Slot(cap: nat, t: nat): nat {
    if cap == 0 then 0 else t % cap
  }

  function Put<T>(s: seq<T>, i: nat, x: T): seq<T> {
    if i < |s| then s[i := x] else s
  }

  predicate Enabled<V(!new)>(s: State<V>, a: Action<V>) {
    match a
    case Count(p, _) => p !in s.producers
    case Undo(p) => p in s.producers && s.producers[p].Rejected?
    case Ticket(p) => p in s.producers && s.producers[p].Admitted?
    case Fill(p) => p in s.producers && s.producers[p].Ticketed?
    case Finish(p) => p in s.producers && s.producers[p].Written?
    case ReadSize => s.consumer.Idle?
    case ReadFlag => s.consumer.Sized?
    case ReadValue => s.consumer.Ready? && Slot(s.cap, s.head) < |s.data|
    case Release => s.consumer.Ready? || s.consumer.Holding?
    case ClearFlag => s.consumer.Holding?
    case Advance => s.consumer.Cleared?
    case Decrement => s.consumer.Advanced?
  }

  function Apply<V(!new)>(s: State<V>, a: Action<V>): (r: State<V>)
    requires Enabled(s, a)
  {
    match a
    case Count(p, x) =>
      s.(count := s.count + 1,
         producers := s.producers[p := if s.count + 1 > s.cap then Rejected else Admitted(x)])
    case Undo(p) =>
      s.(count := s.count - 1, producers := s.producers - {p})
    case Ticket(p) =>
      var x := s.producers[p].x;
      s.(tail := s.tail + 1, producers := s.producers[p := Ticketed(s.tail, x)],
         accepted := s.accepted + [x])
    case Fill(p) =>
      var t, x := s.producers[p].t, s.producers[p].x;
      s.(data := Put(s.data, Slot(s.cap, t), x), producers := s.producers[p := Written(t, x)])
    case Finish(p) =>
      s.(fin := Put(s.fin, Slot(s.cap, s.producers[p].t), true), producers := s.producers - {p})
    case ReadSize => s.(consumer := if s.head != s.tail then Sized else Idle)
    case ReadFlag =>
      var i := Slot(s.cap, s.head);
      s.(consumer := if i < |s.fin| && s.fin[i] then Ready else Idle)
    case ReadValue => s.(consumer := Holding(s.data[Slot(s.cap, s.head)]))
    case Release => s.(consumer := Idle)
    case ClearFlag =>
      s.(consumer := Cleared(s.consumer.v), fin := Put(s.fin, Slot(s.cap, s.head), false))
    case Advance =>
      s.(consumer := Advanced, head := s.head + 1, consumed := s.consumed + [s.consumer.v])
    case Decrement => s.(consumer := Idle, count := s.count - 1)
  }

  ghost predicate Init<V>(s: State<V>) {
    && s.count == 0 && s.head == 0 && s.tail == 0
    && |s.data| == s.cap && |s.fin| == s.cap && (forall i :: 0 <= i < s.cap ==> !s.fin[i])
    && s.producers == map[] && s.consumer.Idle? && s.accepted == [] && s.consumed == []
  }

  // ----- runs

  ghost predicate CanRun<V(!new)>(s: State<V>, acts: seq<Action<V>>)
    decreases |acts|
  {
    acts == [] || (Enabled(s, acts[0]) && CanRun(Apply(s, acts[0]), acts[1..]))
  }

  ghost function Run<V(!new)>(s: State<V>, acts: seq<Action<V>>): State<V>
    requires CanRun(s, acts)
    decreases |acts|
  {
    if acts == [] then s else Run(Apply(s, acts[0]), acts[1..])
  }

  // ----- the invariant

  ghost function AdmittedSet<V>(s: State<V>): set<nat> {
    set p | p in s.producers && s.producers[p].Admitted?
  }

  ghost function RejectedSet<V>(s: State<V>): set<nat> {
    set p | p in s.producers && s.producers[p].Rejected?
  }

  function Undecremented<V>(s: State<V>): nat {
    if s.consumer.Advanced? then 1 else 0
  }

  ghost predicate Holds<V>(s: State<V>, p: nat, t: nat) {
    && p in s.producers
    && (s.producers[p].Ticketed? || s.producers[p].Written?)
    && s.producers[p].t == t
  }

  /** The consumer has passed the flag test for ticket `head` and not yet popped it. */
  predicate AtHead<V>(s: State<V>) {
    s.consumer.Ready? || s.consumer.Holding? || s.consumer.Cleared?
  }

  ghost predicate Counting<V>(s: State<V>) {
    && s.head <= s.tail
    && s.count == |AdmittedSet(s)| + |RejectedSet(s)| + (s.tail - s.head) + Undecremented(s)
    && |AdmittedSet(s)| + (s.tail - s.head) + Undecremented(s) <= s.cap
  }

  ghost predicate Histories<V>(s: State<V>) {
    && s.head <= s.tail == |s.accepted|
    && s.consumed == s.accepted[..s.head]
  }

  /** Tickets held by producers are distinct, inside the window, and unfinished. */
  ghost predicate Owned<V>(s: State<V>)
    requires |s.data| == |s.fin| == s.cap && |s.accepted| == s.tail && s.cap > 0
  {
    && (forall p: nat, t: nat :: Holds(s, p, t) ==>
          && s.head <= t < s.tail && s.accepted[t] == s.producers[p].x
          && !s.fin[Slot(s.cap, t)]
          && (s.producers[p].Written? ==> s.data[Slot(s.cap, t)] == s.accepted[t])
          && (t == s.head ==> !AtHead(s)))
    && (forall p: nat, q: nat, t: nat :: Holds(s, p, t) && Holds(s, q, t) ==> p == q)
  }

  /** A ticket of the window that nobody holds is finished and its slot holds its value. */
  ghost predicate Finished<V>(s: State<V>, t: nat)
    requires |s.data| == |s.fin| == s.cap && s.cap > 0 && t < |s.accepted|
  {
    && s.data[Slot(s.cap, t)] == s.accepted[t]
    && (s.fin[Slot(s.cap, t)] || (t == s.head && s.consumer.Cleared?))
  }

  ghost predicate Window<V>(s: State<V>)
    requires |s.data| == |s.fin| == s.cap && |s.accepted| == s.tail && s.cap > 0
  {
    && (forall t :: s.head <= t < s.tail ==> Finished(s, t) || exists p :: Holds(s, p, t))
    && (forall t :: s.tail <= t < s.head + s.cap ==> !s.fin[Slot(s.cap, t)])
  }

  ghost predicate AtConsumer<V>(s: State<V>)
    requires |s.fin| == s.cap && |s.accepted| == s.tail && s.cap > 0
  {
    && (s.consumer.Sized? || AtHead(s) ==> s.head < s.tail)
    && (s.consumer.Ready? || s.consumer.Holding? ==> s.fin[Slot(s.cap, s.head)])
    && (s.consumer.Holding? || s.consumer.Cleared? ==> s.consumer.v == s.accepted[s.head])
    && (s.consumer.Cleared? ==> !s.fin[Slot(s.cap, s.head)])
  }

  ghost predicate Inv<V>(s: State<V>) {
    && |s.data| == |s.fin| == s.cap
    && Counting(s) && Histories(s)
    && (if s.cap == 0 then
          s.tail == 0 && s.consumer.Idle? && (forall p :: p in s.producers ==> s.producers[p].Rejected?)
        else
          Owned(s) && Window(s) && AtConsumer(s))
  }

  // ----- slots of a window of `cap` tickets do not collide

  lemma SlotsDiffer(cap: nat, lo: nat)
    requires cap > 0
    ensures forall a: nat, b: nat {:trigger Slot(cap, a), Slot(cap, b)} ::
              lo <= a < lo + cap && lo <= b < lo + cap && a != b ==> Slot(cap, a) != Slot(cap, b)
  {
    forall a: nat, b: nat | lo <= a < lo + cap && lo <= b < lo + cap && a != b
      ensures Slot(cap, a) != Slot(cap, b)
    {
      if a < b { ModDiffer(a, b, cap); } else { ModDiffer(b, a, cap); }
    }
  }

  lemma SlotBound(cap: nat)
    requires cap > 0
    ensures forall t: nat {:trigger Slot(cap, t)} :: 0 <= Slot(cap, t) < cap
  {
  }

  lemma SlotWraps(cap: nat, t: nat)
    requires cap > 0
    ensures Slot(cap, t + cap) == Slot(cap, t)
  {
    ModShift(t, cap, 1);
  }

  // ----- every action keeps the invariant

  lemma InitInv<V>(s: State<V>)
    requires Init(s)
    ensures Inv(s)
  {
    assert AdmittedSet(s) == {} && RejectedSet(s) == {};
    if s.cap > 0 { SlotBound(s.cap); }
  }

  /** Threads that hold no ticket can come and go without disturbing the window. */
  lemma WindowFrame<V>(s: State<V>, r: State<V>)
    requires Inv(s) && s.cap > 0
    requires r == s.(count := r.count, producers := r.producers)
    requires forall q: nat, t: nat :: Holds(r, q, t) <==> Holds(s, q, t)
    requires forall q: nat, t: nat :: Holds(s, q, t) ==> q in r.producers && r.producers[q] == s.producers[q]
    ensures Owned(r) && Window(r) && AtConsumer(r)
  {
    forall t | r.head <= t < r.tail
      ensures Finished(r, t) || exists q :: Holds(r, q, t)
    {
      if !Finished(s, t) { var q :| Holds(s, q, t); assert Holds(r, q, t); }
    }
  }

  lemma CountKeepsInv<V(!new)>(s: State<V>, p: nat, x: V)
    requires Inv(s) && Enabled(s, Count(p, x))
    ensures Inv(Apply(s, Count(p, x)))
  {
    hide Owned, Window, AtConsumer, Counting;
    var r := Apply(s, Count(p, x));
    CountKeepsCounting(s, p, x);
    if s.cap > 0 {
      assert forall q: nat, t: nat :: Holds(r, q, t) <==> Holds(s, q, t);
      WindowFrame(s, r);
    } else {
      CountPositive(s);
    }
  }

  lemma CountPositive<V>(s: State<V>)
    requires Counting(s)
    ensures s.count >= 0
  {
  }

  lemma CountKeepsCounting<V(!new)>(s: State<V>, p: nat, x: V)
    requires Counting(s) && Enabled(s, Count(p, x))
    ensures Counting(Apply(s, Count(p, x)))
  {
    CountSets(s, p, x);
    hide AdmittedSet, RejectedSet;
  }

  lemma CountSets<V(!new)>(s: State<V>, p: nat, x: V)
    requires Enabled(s, Count(p, x))
    ensures var r := Apply(s, Count(p, x));
            && p !in AdmittedSet(s) && p !in RejectedSet(s)
            && AdmittedSet(r) == AdmittedSet(s) + (if s.count + 1 > s.cap then {} else {p})
            && RejectedSet(r) == RejectedSet(s) + (if s.count + 1 > s.cap then {p} else {})
  {
  }

  lemma UndoKeepsInv<V(!new)>(s: State<V>, p: nat)
    requires Inv(s) && Enabled(s, Undo(p))
    ensures Inv(Apply(s, Undo(p)))
  {
    var r := Apply(s, Undo(p));
    assert AdmittedSet(r) == AdmittedSet(s) && RejectedSet(s) == RejectedSet(r) + {p};
    assert forall q: nat, t: nat :: Holds(r, q, t) <==> Holds(s, q, t);
    if s.cap > 0 { WindowFrame(s, r); }
  }

  /** An admitted producer leaves room for its ticket in the window. */
  lemma RoomForTicket<V>(s: State<V>, p: nat)
    requires Inv(s) && p in s.producers && s.producers[p].Admitted?
    ensures s.cap > 0 && s.tail < s.head + s.cap && !s.fin[Slot(s.cap, s.tail)]
  {
    assert p in AdmittedSet(s);
    SlotBound(s.cap);
  }

  lemma TicketKeepsInv<V(!new)>(s: State<V>, p: nat)
    requires Inv(s) && Enabled(s, Ticket(p))
    ensures Inv(Apply(s, Ticket(p)))
  {
    hide Counting, Slot;
    var r := Apply(s, Ticket(p));
    RoomForTicket(s, p);
    SlotBound(s.cap);
    TicketKeepsCounting(s, p);
    assert forall q: nat, t: nat :: Holds(r, q, t) <==> Holds(s, q, t) || (q == p && t == s.tail);
    forall t | r.head <= t < r.tail
      ensures Finished(r, t) || exists q :: Holds(r, q, t)
    {
      if t == s.tail { assert Holds(r, p, t); }
      else if !Finished(s, t) { var q :| Holds(s, q, t); assert Holds(r, q, t); }
    }
  }

  lemma TicketKeepsCounting<V(!new)>(s: State<V>, p: nat)
    requires Counting(s) && Enabled(s, Ticket(p))
    ensures Counting(Apply(s, Ticket(p)))
  {
    var r := Apply(s, Ticket(p));
    assert AdmittedSet(s) == AdmittedSet(r) + {p} && RejectedSet(r) == RejectedSet(s);
  }

  lemma FillKeepsInv<V(!new)>(s: State<V>, p: nat)
    requires Inv(s) && Enabled(s, Fill(p))
    ensures Inv(Apply(s, Fill(p)))
  {
    var r := Apply(s, Fill(p));
    var u := s.producers[p].t;
    SlotBound(s.cap);
    SlotsDiffer(s.cap, s.head);
    assert AdmittedSet(r) == AdmittedSet(s) && RejectedSet(r) == RejectedSet(s);
    assert forall q: nat, t: nat :: Holds(r, q, t) <==> Holds(s, q, t);
    assert Holds(s, p, u);
    forall t | r.head <= t < r.tail
      ensures Finished(r, t) || exists q :: Holds(r, q, t)
    {
      if t == u { assert Holds(r, p, t); }
      else if !Finished(s, t) { var q :| Holds(s, q, t); assert Holds(r, q, t); }
    }
  }

  lemma FinishKeepsWindow<V(!new)>(s: State<V>, p: nat)
    requires Inv(s) && Enabled(s, Finish(p)) && s.cap > 0
    ensures var r := Apply(s, Finish(p)); |r.fin| == r.cap && Owned(r) && Window(r) && AtConsumer(r)
  {
    assert s.head <= s.tail == |s.accepted| && s.tail <= s.head + s.cap;
    hide Counting, Histories, Slot;
    var r := Apply(s, Finish(p));
    var u := s.producers[p].t;
    SlotBound(s.cap);
    SlotsDiffer(s.cap, s.head);
    assert Holds(s, p, u);
    assert forall q: nat, t: nat :: Holds(r, q, t) <==> Holds(s, q, t) && q != p;
    forall t | r.head <= t < r.tail
      ensures Finished(r, t) || exists q :: Holds(r, q, t)
    {
      if t != u && !Finished(s, t) { var q :| Holds(s, q, t); assert Holds(r, q, t); }
    }
  }

  lemma FinishKeepsInv<V(!new)>(s: State<V>, p: nat)
    requires Inv(s) && Enabled(s, Finish(p))
    ensures Inv(Apply(s, Finish(p)))
  {
    hide Owned, Window, AtConsumer;
    var r := Apply(s, Finish(p));
    assert AdmittedSet(r) == AdmittedSet(s) && RejectedSet(r) == RejectedSet(s);
    FinishKeepsWindow(s, p);
  }

  lemma ConsumerReadKeepsInv<V(!new)>(s: State<V>, a: Action<V>)
    requires Inv(s) && Enabled(s, a) && (a.ReadSize? || a.ReadFlag? || a.ReadValue? || a.Release?)
    ensures Inv(Apply(s, a))
  {
    var r := Apply(s, a);
    assert AdmittedSet(r) == AdmittedSet(s) && RejectedSet(r) == RejectedSet(s);
    assert forall q: nat, t: nat :: Holds(r, q, t) <==> Holds(s, q, t);
    if s.cap > 0 {
      SlotBound(s.cap);
      if a.ReadValue? { assert forall q: nat :: !Holds(s, q, s.head); assert Finished(s, s.head); }
      forall t | r.head <= t < r.tail
        ensures Finished(r, t) || exists q :: Holds(r, q, t)
      {
        if !Finished(s, t) { var q :| Holds(s, q, t); assert Holds(r, q, t); }
      }
    }
  }

  lemma ClearFlagKeepsInv<V(!new)>(s: State<V>)
    requires Inv(s) && Enabled(s, ClearFlag)
    ensures Inv(Apply(s, ClearFlag))
  {
    var r := Apply(s, ClearFlag);
    SlotBound(s.cap);
    SlotsDiffer(s.cap, s.head);
    assert AdmittedSet(r) == AdmittedSet(s) && RejectedSet(r) == RejectedSet(s);
    assert forall q: nat, t: nat :: Holds(r, q, t) <==> Holds(s, q, t);
    forall t | r.head <= t < r.tail
      ensures Finished(r, t) || exists q :: Holds(r, q, t)
    {
      if !Finished(s, t) { var q :| Holds(s, q, t); assert Holds(r, q, t); }
    }
  }

  lemma AdvanceKeepsInv<V(!new)>(s: State<V>)
    requires Inv(s) && Enabled(s, Advance)
    ensures Inv(Apply(s, Advance))
  {
    var r := Apply(s, Advance);
    SlotBound(s.cap);
    SlotsDiffer(s.cap, s.head);
    SlotWraps(s.cap, s.head);
    assert AdmittedSet(r) == AdmittedSet(s) && RejectedSet(r) == RejectedSet(s);
    assert forall q: nat, t: nat :: Holds(r, q, t) <==> Holds(s, q, t);
    forall t | r.head <= t < r.tail
      ensures Finished(r, t) || exists q :: Holds(r, q, t)
    {
      if !Finished(s, t) { var q :| Holds(s, q, t); assert Holds(r, q, t); }
    }
  }

  lemma DecrementKeepsInv<V(!new)>(s: State<V>)
    requires Inv(s) && Enabled(s, Decrement)
    ensures Inv(Apply(s, Decrement))
  {
    var r := Apply(s, Decrement);
    assert AdmittedSet(r) == AdmittedSet(s) && RejectedSet(r) == RejectedSet(s);
    assert forall q: nat, t: nat :: Holds(r, q, t) <==> Holds(s, q, t);
    forall t | r.head <= t < r.tail
      ensures Finished(r, t) || exists q :: Holds(r, q, t)
    {
      if !Finished(s, t) { var q :| Holds(s, q, t); assert Holds(r, q, t); }
    }
  }

  lemma StepKeepsInv<V(!new)>(s: State<V>, a: Action<V>)
    requires Inv(s) && Enabled(s, a)
    ensures Inv(Apply(s, a))
  {
    match a
    case Count(p, x) => CountKeepsInv(s, p, x);
    case Undo(p) => UndoKeepsInv(s, p);
    case Ticket(p) => TicketKeepsInv(s, p);
    case Fill(p) => FillKeepsInv(s, p);
    case Finish(p) => FinishKeepsInv(s, p);
    case ClearFlag => ClearFlagKeepsInv(s);
    case Advance => AdvanceKeepsInv(s);
    case Decrement => DecrementKeepsInv(s);
    case _ => ConsumerReadKeepsInv(s, a);
  }

  lemma {:induction false} RunKeepsInv<V(!new)>(s: State<V>, acts: seq<Action<V>>)
    requires Inv(s) && CanRun(s, acts)
    ensures Inv(Run(s, acts))
    decreases |acts|
  {
    if acts != [] {
      StepKeepsInv(s, acts[0]);
      RunKeepsInv(Apply(s, acts[0]), acts[1..]);
    }
  }

  // ----- what every run guarantees

  /** Safety over all interleavings: the window, the reserved tickets and the pop not
      yet counted fit the capacity; `_Count` is never negative; a slot about to be
      handed out lies outside the window with its finished flag 0. */
  lemma CapacityRespected<V(!new)>(s0: State<V>, acts: seq<Action<V>>)
    requires Init(s0) && CanRun(s0, acts)
    ensures var s := Run(s0, acts);
            && s.head <= s.tail
            && |AdmittedSet(s)| + (s.tail - s.head) + Undecremented(s) <= s.cap
            && s.count >= 0
            && (s.consumer.Advanced? ==> s.count >= 1)
            && (forall p :: p in s.producers && s.producers[p].Admitted? ==>
                  && Slot(s.cap, s.tail) < |s.fin| && !s.fin[Slot(s.cap, s.tail)]
                  && forall t: nat :: s.head <= t < s.tail ==> Slot(s.cap, t) != Slot(s.cap, s.tail))
  {
    InitInv(s0);
    RunKeepsInv(s0, acts);
    var s := Run(s0, acts);
    forall p | p in s.producers && s.producers[p].Admitted?
      ensures Slot(s.cap, s.tail) < |s.fin| && !s.fin[Slot(s.cap, s.tail)]
      ensures forall t: nat :: s.head <= t < s.tail ==> Slot(s.cap, t) != Slot(s.cap, s.tail)
    {
      RoomForTicket(s, p);
      SlotBound(s.cap);
      SlotsDiffer(s.cap, s.head);
    }
  }

  /** A producer that holds a ticket has its slot to itself as far as the consumer goes:
      its flag is still 0, and it is not the slot being read or released. */
  lemma HeldSlotUntouched<V(!new)>(s0: State<V>, acts: seq<Action<V>>, p: nat, t: nat)
    requires Init(s0) && CanRun(s0, acts) && Holds(Run(s0, acts), p, t)
    ensures var s := Run(s0, acts);
            && Slot(s.cap, t) < |s.fin| && !s.fin[Slot(s.cap, t)]
            && (AtHead(s) ==> Slot(s.cap, t) != Slot(s.cap, s.head))
  {
    InitInv(s0);
    RunKeepsInv(s0, acts);
    var s := Run(s0, acts);
    SlotBound(s.cap);
    SlotsDiffer(s.cap, s.head);
  }

  /** No two producers ever hold the same slot. */
  lemma SlotsExclusive<V(!new)>(s0: State<V>, acts: seq<Action<V>>, p: nat, q: nat, t: nat, u: nat)
    requires Init(s0) && CanRun(s0, acts)
    requires p != q && Holds(Run(s0, acts), p, t) && Holds(Run(s0, acts), q, u)
    ensures Slot(Run(s0, acts).cap, t) != Slot(Run(s0, acts).cap, u)
  {
    InitInv(s0);
    RunKeepsInv(s0, acts);
    var s := Run(s0, acts);
    SlotBound(s.cap);
    SlotsDiffer(s.cap, s.head);
  }

  /** FIFO over all interleavings: what has been consumed is a prefix of the values in
      ticket order, and a value is read only after its Produce_End. */
  lemma ConsumedInTicketOrder<V(!new)>(s0: State<V>, acts: seq<Action<V>>)
    requires Init(s0) && CanRun(s0, acts)
    ensures var s := Run(s0, acts);
            && s.consumed <= s.accepted && |s.consumed| == s.head && |s.accepted| == s.tail
            && (s.consumer.Holding? ==>
                  && s.head < s.tail && s.consumer.v == s.accepted[s.head]
                  && forall p :: !Holds(s, p, s.head))
  {
    InitInv(s0);
    RunKeepsInv(s0, acts);
  }

  lemma {:induction false} HistoriesGrow<V(!new)>(s: State<V>, acts: seq<Action<V>>)
    requires CanRun(s, acts)
    ensures s.accepted <= Run(s, acts).accepted && s.consumed <= Run(s, acts).consumed
    decreases |acts|
  {
    if acts != [] {
      var r := Apply(s, acts[0]);
      assert s.accepted <= r.accepted && s.consumed <= r.consumed;
      HistoriesGrow(r, acts[1..]);
    }
  }

  /** Nothing is lost: once no thread is inside an operation, the count is the number of
      values not yet consumed and each of them is in its slot, finished. */
  lemma NothingLostAtRest<V(!new)>(s0: State<V>, acts: seq<Action<V>>)
    requires Init(s0) && CanRun(s0, acts)
    requires Run(s0, acts).producers == map[] && Run(s0, acts).consumer.Idle?
    ensures var s := Run(s0, acts);
            && s.count == |s.accepted| - |s.consumed| <= s.cap
            && forall t: nat :: |s.consumed| <= t < |s.accepted| ==>
                 && Slot(s.cap, t) < |s.fin| == |s.data|
                 && s.fin[Slot(s.cap, t)] && s.data[Slot(s.cap, t)] == s.accepted[t]
  {
    InitInv(s0);
    RunKeepsInv(s0, acts);
    var s := Run(s0, acts);
    assert AdmittedSet(s) == {} && RejectedSet(s) == {};
    assert forall p: nat, t: nat :: !Holds(s, p, t);
    if s.cap > 0 {
      SlotBound(s.cap);
      forall t: nat | |s.consumed| <= t < |s.accepted|
        ensures s.fin[Slot(s.cap, t)] && s.data[Slot(s.cap, t)] == s.accepted[t]
      {
        assert Finished(s, t);
      }
    }
  }

  /** Exactly when Produce_Begin fails: the threads counted so far already fill the ring.
      Rejected producers that have not yet undone their count make it fail early. */
  lemma RejectedExactlyWhenFull<V(!new)>(s0: State<V>, acts: seq<Action<V>>, p: nat, x: V)
    requires Init(s0) && CanRun(s0, acts) && Enabled(Run(s0, acts), Count(p, x))
    ensures var s := Run(s0, acts);
            var r := Apply(s, Count(p, x));
            r.producers[p].Rejected? <==>
              |AdmittedSet(s)| + |RejectedSet(s)| + (s.tail - s.head) + Undecremented(s) >= s.cap
  {
    InitInv(s0);
    RunKeepsInv(s0, acts);
  }

  // ----- progress

  lemma RunCons<V(!new)>(s: State<V>, a: Action<V>, rest: seq<Action<V>>)
    requires Enabled(s, a) && CanRun(Apply(s, a), rest)
    ensures CanRun(s, [a] + rest) && Run(s, [a] + rest) == Run(Apply(s, a), rest)
  {
    hide Apply, Enabled;
    assert ([a] + rest)[1..] == rest;
  }

  lemma RunTwo<V(!new)>(s: State<V>, a: Action<V>, b: Action<V>)
    requires Enabled(s, a) && Enabled(Apply(s, a), b)
    ensures CanRun(s, [a, b]) && Run(s, [a, b]) == Apply(Apply(s, a), b)
  {
    hide Apply, Enabled;
    var t := Apply(s, a);
    assert [b][1..] == [] && CanRun(t, [b]) && Run(t, [b]) == Apply(t, b);
    RunCons(s, a, [b]);
    assert [a] + [b] == [a, b];
  }

  /** Between two calls the consumer sees a size exactly when something is not yet consumed,
      and then the finished flag exactly when nobody is still working on the oldest value. */
  lemma HeadSeenIff<V(!new)>(s0: State<V>, acts: seq<Action<V>>)
    requires Init(s0) && CanRun(s0, acts)
    ensures var s := Run(s0, acts);
            && (s.consumer.Idle? ==> (Apply(s, ReadSize).consumer.Sized? <==> |s.consumed| < |s.accepted|))
            && (s.consumer.Sized? ==>
                  && |s.consumed| < |s.accepted|
                  && (Apply(s, ReadFlag).consumer.Ready? <==> forall p :: !Holds(s, p, |s.consumed|)))
  {
    InitInv(s0);
    RunKeepsInv(s0, acts);
    var s := Run(s0, acts);
    if s.consumer.Sized? { FlagSeen(s); }
  }

  lemma FlagSeen<V(!new)>(s: State<V>)
    requires Inv(s) && s.consumer.Sized?
    ensures s.head == |s.consumed| < |s.accepted| == s.tail && s.cap > 0
    ensures Slot(s.cap, s.head) < |s.fin| && (s.fin[Slot(s.cap, s.head)] <==> forall p :: !Holds(s, p, s.head))
  {
    SlotBound(s.cap);
    if forall p :: !Holds(s, p, s.head) {
      assert Finished(s, s.head);
    }
  }

  /** What the consumer does with one value. */
  function Taking<V>(): seq<Action<V>> { [ReadSize, ReadFlag, ReadValue, ClearFlag, Advance, Decrement] }

  /** In every reachable state, whatever the other producers are doing: once the oldest value is
      finished, the consumer gets it, it alone, and comes back. */
  lemma ConsumerProgress<V(!new)>(s0: State<V>, acts: seq<Action<V>>)
    requires Init(s0) && CanRun(s0, acts) && Run(s0, acts).consumer.Idle?
    requires var s := Run(s0, acts);
             |s.consumed| < |s.accepted| && forall p :: !Holds(s, p, |s.consumed|)
    ensures var s := Run(s0, acts);
            && CanRun(s, Taking<V>())
            && var r := Run(s, Taking<V>());
               && r.consumed == s.consumed + [s.accepted[|s.consumed|]] && r.accepted == s.accepted
               && r.producers == s.producers && r.consumer.Idle? && r.count == s.count - 1
  {
    hide CanRun, Run, Inv;
    InitInv(s0);
    RunKeepsInv(s0, acts);
    TakeOne(Run(s0, acts));
  }

  lemma TakeOne<V(!new)>(s: State<V>)
    requires Inv(s) && s.consumer.Idle? && |s.consumed| < |s.accepted| && forall p :: !Holds(s, p, |s.consumed|)
    ensures CanRun(s, Taking<V>())
    ensures var r := Run(s, Taking<V>());
            && r.consumed == s.consumed + [s.accepted[|s.consumed|]] && r.accepted == s.accepted
            && r.producers == s.producers && r.consumer.Idle? && r.count == s.count - 1
  {
    hide CanRun, Run;
    var s1 := Apply(s, ReadSize);
    StepKeepsInv(s, ReadSize);
    FlagSeen(s1);
    assert forall p :: Holds(s1, p, s1.head) ==> Holds(s, p, s.head);
    var s2 := Apply(s1, ReadFlag);
    StepKeepsInv(s1, ReadFlag);
    var s3 := Apply(s2, ReadValue);
    StepKeepsInv(s2, ReadValue);
    assert s3.consumer == Holding(s.accepted[s.head]);
    TakeRest(s3);
    RunCons(s2, ReadValue, [ClearFlag, Advance, Decrement]);
    RunCons(s1, ReadFlag, [ReadValue] + [ClearFlag, Advance, Decrement]);
    RunCons(s, ReadSize, [ReadFlag] + ([ReadValue] + [ClearFlag, Advance, Decrement]));
    assert [Action<V>.ReadSize] + ([ReadFlag] + ([ReadValue] + [ClearFlag, Advance, Decrement])) == Taking<V>();
  }

  /** A value that is looked at and not taken is there at the next look. */
  lemma ReleasedValueStays<V(!new)>(s0: State<V>, acts: seq<Action<V>>)
    requires Init(s0) && CanRun(s0, acts) && Run(s0, acts).consumer.Holding?
    ensures var s, again := Run(s0, acts), [Release, ReadSize, ReadFlag, ReadValue];
            CanRun(s, again) && Run(s, again) == s
  {
    hide CanRun, Run;
    InitInv(s0);
    RunKeepsInv(s0, acts);
    var s := Run(s0, acts);
    SlotBound(s.cap);
    assert Finished(s, s.head);
    var s1 := Apply(s, Release);
    var s2 := Apply(s1, ReadSize);
    RunTwo(s2, ReadFlag, ReadValue);
    RunCons(s1, ReadSize, [ReadFlag, ReadValue]);
    RunCons(s, Release, [ReadSize] + [ReadFlag, ReadValue]);
    assert [Action<V>.Release] + ([ReadSize] + [ReadFlag, ReadValue]) == [Release, ReadSize, ReadFlag, ReadValue];
  }

  lemma TakeRest<V(!new)>(s: State<V>)
    requires s.consumer.Holding?
    ensures CanRun(s, [ClearFlag, Advance, Decrement])
    ensures var r := Run(s, [ClearFlag, Advance, Decrement]);
            && r.consumed == s.consumed + [s.consumer.v] && r.accepted == s.accepted
            && r.producers == s.producers && r.consumer.Idle? && r.count == s.count - 1
  {
    hide CanRun, Run;
    var s1 := Apply(s, ClearFlag);
    RunTwo(s1, Advance, Decrement);
    RunCons(s, ClearFlag, [Advance, Decrement]);
    assert [Action<V>.ClearFlag] + [Advance, Decrement] == [ClearFlag, Advance, Decrement];
  }

  function Giving<V>(p: nat, x: V): seq<Action<V>> { [Count(p, x), Ticket(p), Fill(p), Finish(p)] }

  /** In every reachable state a thread that is outside can produce. While the ring is not full
      its value is accepted next, and it is outside again; on a full ring nothing is left of
      the attempt. */
  lemma ProducerProgress<V(!new)>(s0: State<V>, acts: seq<Action<V>>, p: nat, x: V)
    requires Init(s0) && CanRun(s0, acts) && p !in Run(s0, acts).producers
    ensures var s := Run(s0, acts);
            && (s.count < s.cap ==>
                  && CanRun(s, Giving(p, x))
                  && var r := Run(s, Giving(p, x));
                     && r.accepted == s.accepted + [x] && r.consumed == s.consumed && r.count == s.count + 1
                     && r.producers == s.producers && r.consumer == s.consumer)
            && (s.count >= s.cap ==> CanRun(s, [Count(p, x), Undo(p)]) && Run(s, [Count(p, x), Undo(p)]) == s)
  {
    hide CanRun, Run, Inv;
    var s := Run(s0, acts);
    if s.count < s.cap { GiveOne(s, p, x); } else { GiveNone(s, p, x); }
  }

  lemma GiveOne<V(!new)>(s: State<V>, p: nat, x: V)
    requires p !in s.producers && s.count < s.cap
    ensures CanRun(s, Giving(p, x))
    ensures var r := Run(s, Giving(p, x));
            && r.accepted == s.accepted + [x] && r.consumed == s.consumed && r.count == s.count + 1
            && r.producers == s.producers && r.consumer == s.consumer
  {
    hide CanRun, Run;
    var s1 := Apply(s, Count(p, x));
    var s2 := Apply(s1, Ticket(p));
    RunTwo(s2, Fill(p), Finish(p));
    RunCons(s1, Ticket(p), [Fill(p), Finish(p)]);
    RunCons(s, Count(p, x), [Ticket(p)] + [Fill(p), Finish(p)]);
    assert [Count(p, x)] + ([Ticket(p)] + [Fill(p), Finish(p)]) == Giving(p, x);
    assert Apply(Apply(s2, Fill(p)), Finish(p)).producers == s.producers;
  }

  lemma GiveNone<V(!new)>(s: State<V>, p: nat, x: V)
    requires p !in s.producers && s.count >= s.cap
    ensures CanRun(s, [Count(p, x), Undo(p)]) && Run(s, [Count(p, x), Undo(p)]) == s
  {
    hide CanRun, Run;
    RunTwo(s, Count(p, x), Undo(p));
    assert Apply(Apply(s, Count(p, x)), Undo(p)).producers == s.producers;
  }
}
