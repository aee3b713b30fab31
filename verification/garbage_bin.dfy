/** The delayed-free sweeper of core/os/multi_thread.cpp. Time is counted in sweeps; an
    object is named by the position of the event that handed it over. */
module GarbageBin {
  import opened Bytes

  datatype Item = Item(id: nat, ttl: nat)

  /** `Delete` is DeleteObject on a non-null object with its time to live in milliseconds. */
  datatype Event = Delete(msec: dword) | Sweep

  type dword = x: int | 0 <= x < WORD

  datatype Freed = Freed(id: nat, at: nat)

  datatype Bin = Bin(pending: seq<Item>, freed: seq<Freed>)

  /** The TTL of a new item, computed in 32 bits. */
  function Ttl(msec: dword): nat { (msec + 999) % WORD / 1000 }

  /** The sweep on which an item with this TTL goes: a TTL of 0 goes like a TTL of 1. */
  function Due(ttl: nat): nat { if ttl == 0 then 1 else ttl }

  /** What one pass keeps: everything with more than one sweep to live, one sweep older. */
  function Kept(items: seq<Item>): seq<Item> {
    if items == [] then []
    else (if items[0].ttl > 1 then [items[0].(ttl := items[0].ttl - 1)] else []) + Kept(items[1..])
  }

  function Dropped(items: seq<Item>, at: nat): seq<Freed> {
    if items == [] then []
    else (if items[0].ttl > 1 then [] else [Freed(items[0].id, at)]) + Dropped(items[1..], at)
  }

  function Step(b: Bin, e: Event, at: nat): Bin {
    match e
    case Sweep => Bin(Kept(b.pending), b.freed + Dropped(b.pending, at))
    case Delete(msec) =>
      if msec == 0 then b.(freed := b.freed + [Freed(at, at)])
      else b.(pending := b.pending + [Item(at, Ttl(msec))])
  }

  function Run(events: seq<Event>): Bin {
    if events == [] then Bin([], [])
    else var n := |events| - 1; Step(Run(events[..n]), events[n], n)
  }

  /** Exit deletes whatever is still pending. */
  function Exit(b: Bin, at: nat): Bin { Bin([], b.freed + Remaining(b.pending, at)) }

  function Remaining(items: seq<Item>, at: nat): seq<Freed> {
    if items == [] then [] else [Freed(items[0].id, at)] + Remaining(items[1..], at)
  }

  // ----- what every run keeps

  /** Number of sweeps among events `lo` to `hi`, exclusive. */
  function SweepsBetween(events: seq<Event>, lo: nat, hi: nat): nat
    requires hi <= |events|
  {
    if hi <= lo then 0
    else SweepsBetween(events, lo, hi - 1) + if events[hi - 1].Sweep? then 1 else 0
  }

  predicate IsDelayed(events: seq<Event>, id: nat) {
    id < |events| && events[id].Delete? && events[id].msec > 0
  }

  /** A pending item is as old as the sweeps since it came, and not yet due. */
  predicate Waiting(events: seq<Event>, it: Item) {
    && IsDelayed(events, it.id)
    && Due(it.ttl) + SweepsBetween(events, it.id + 1, |events|) == Due(Ttl(events[it.id].msec))
  }

  /** An object is freed at once, or on exactly its last sweep. */
  predicate OnTime(events: seq<Event>, f: Freed) {
    && f.id <= f.at < |events| && events[f.id].Delete?
    && (if events[f.id].msec == 0 then f.at == f.id
        else events[f.at].Sweep? && SweepsBetween(events, f.id + 1, f.at + 1) == Due(Ttl(events[f.id].msec)))
  }

  predicate Ordered(items: seq<Item>) { forall i, j :: 0 <= i < j < |items| ==> items[i].id < items[j].id }

  function Ids(fs: seq<Freed>): multiset<nat> {
    if fs == [] then multiset{} else multiset{fs[0].id} + Ids(fs[1..])
  }

  function PendingIds(items: seq<Item>): multiset<nat> {
    if items == [] then multiset{} else multiset{items[0].id} + PendingIds(items[1..])
  }

  /** Everything handed over so far, once each. */
  function Handed(events: seq<Event>): multiset<nat> {
    if events == [] then multiset{}
    else
      var n := |events| - 1;
      Handed(events[..n]) + if events[n].Delete? then multiset{n} else multiset{}
  }

  ghost predicate Inv(events: seq<Event>, b: Bin) {
    && (forall i :: 0 <= i < |b.pending| ==> Waiting(events, b.pending[i]))
    && Ordered(b.pending)
    && (forall i :: 0 <= i < |b.freed| ==> OnTime(events, b.freed[i]))
    && PendingIds(b.pending) + Ids(b.freed) == Handed(events)
  }

  lemma {:induction false} IdsConcat(a: seq<Freed>, b: seq<Freed>)
    ensures Ids(a + b) == Ids(a) + Ids(b)
  {
    if a == [] { assert a + b == b; } else { assert (a + b)[1..] == a[1..] + b; IdsConcat(a[1..], b); }
  }

  lemma {:induction false} PendingConcat(a: seq<Item>, b: seq<Item>)
    ensures PendingIds(a + b) == PendingIds(a) + PendingIds(b)
  {
    if a == [] { assert a + b == b; } else { assert (a + b)[1..] == a[1..] + b; PendingConcat(a[1..], b); }
  }

  /** A pass loses nothing: each item is either kept or dropped. */
  lemma {:induction false} PassConserves(items: seq<Item>, at: nat)
    ensures PendingIds(Kept(items)) + Ids(Dropped(items, at)) == PendingIds(items)
  {
    hide Ids, PendingIds;
    if items == [] {
      NoIds();
    } else {
      var it, rest := items[0], items[1..];
      PassConserves(rest, at);
      PendingCons(it, rest);
      assert [it] + rest == items;
      if it.ttl > 1 {
        PendingCons(it.(ttl := it.ttl - 1), Kept(rest));
        assert Dropped(items, at) == Dropped(rest, at);
      } else {
        IdsCons(Freed(it.id, at), Dropped(rest, at));
        assert Kept(items) == Kept(rest);
      }
    }
  }

  lemma NoIds()
    ensures Ids([]) == multiset{} && PendingIds([]) == multiset{}
  {
  }

  lemma IdsCons(f: Freed, fs: seq<Freed>)
    ensures Ids([f] + fs) == multiset{f.id} + Ids(fs)
  {
    assert ([f] + fs)[1..] == fs;
  }

  lemma PendingCons(it: Item, items: seq<Item>)
    ensures PendingIds([it] + items) == multiset{it.id} + PendingIds(items)
  {
    assert ([it] + items)[1..] == items;
  }

  lemma {:induction false} KeptOrdered(items: seq<Item>, lo: nat)
    requires Ordered(items) && forall i :: 0 <= i < |items| ==> items[i].id >= lo
    ensures Ordered(Kept(items)) && forall i :: 0 <= i < |Kept(items)| ==> Kept(items)[i].id >= lo
  {
    if items != [] { KeptOrdered(items[1..], items[0].id + 1); }
  }

  /** One more event does not change what happened before it. */
  lemma {:induction false} SweepsPrefix(events: seq<Event>, e: Event, lo: nat, hi: nat)
    requires hi <= |events|
    ensures SweepsBetween(events + [e], lo, hi) == SweepsBetween(events, lo, hi)
    decreases hi
  {
    if hi > lo { SweepsPrefix(events, e, lo, hi - 1); }
  }

  lemma {:induction false} KeptWaiting(events: seq<Event>, items: seq<Item>)
    requires forall i :: 0 <= i < |items| ==> Waiting(events, items[i])
    ensures forall i :: 0 <= i < |Kept(items)| ==> Waiting(events + [Sweep], Kept(items)[i])
  {
    if items != [] {
      KeptWaiting(events, items[1..]);
      SweepsPrefix(events, Sweep, items[0].id + 1, |events|);
    }
  }

  lemma {:induction false} DroppedOnTime(events: seq<Event>, items: seq<Item>)
    requires forall i :: 0 <= i < |items| ==> Waiting(events, items[i])
    ensures var d := Dropped(items, |events|);
            forall i :: 0 <= i < |d| ==> OnTime(events + [Sweep], d[i])
  {
    if items != [] {
      DroppedOnTime(events, items[1..]);
      SweepsPrefix(events, Sweep, items[0].id + 1, |events|);
      var it, at := items[0], |events|;
      if it.ttl <= 1 {
        assert SweepsBetween(events + [Sweep], it.id + 1, at + 1) ==
               SweepsBetween(events + [Sweep], it.id + 1, at) + 1;
        assert OnTime(events + [Sweep], Freed(it.id, at));
        assert Dropped(items, at) == [Freed(it.id, at)] + Dropped(items[1..], at);
      } else {
        assert Dropped(items, at) == Dropped(items[1..], at);
      }
    }
  }

  lemma StaysOnTime(events: seq<Event>, e: Event, f: Freed)
    requires OnTime(events, f)
    ensures OnTime(events + [e], f)
  {
    SweepsPrefix(events, e, f.id + 1, f.at + 1);
  }

  lemma StaysWaiting(events: seq<Event>, e: Event, it: Item)
    requires Waiting(events, it) && e.Delete?
    ensures Waiting(events + [e], it)
  {
    SweepsPrefix(events, e, it.id + 1, |events|);
  }

  lemma HandedNext(events: seq<Event>, e: Event)
    ensures Handed(events + [e]) == Handed(events) + if e.Delete? then multiset{|events|} else multiset{}
  {
    assert (events + [e])[..|events|] == events;
  }

  lemma SweepKeepsInv(events: seq<Event>, b: Bin)
    requires Inv(events, b)
    ensures Inv(events + [Sweep], Step(b, Sweep, |events|))
  {
    hide Kept, Dropped, Waiting, OnTime, Ids, PendingIds, Handed, Ordered;
    var at := |events|;
    PassConserves(b.pending, at);
    KeptOrdered(b.pending, 0);
    KeptWaiting(events, b.pending);
    DroppedOnTime(events, b.pending);
    IdsConcat(b.freed, Dropped(b.pending, at));
    HandedNext(events, Sweep);
    forall i | 0 <= i < |b.freed|
      ensures OnTime(events + [Sweep], b.freed[i])
    {
      StaysOnTime(events, Sweep, b.freed[i]);
    }
  }

  lemma DeleteKeepsInv(events: seq<Event>, b: Bin, msec: dword)
    requires Inv(events, b)
    ensures Inv(events + [Delete(msec)], Step(b, Delete(msec), |events|))
  {
    hide Ids, PendingIds, Handed;
    var at, e := |events|, Delete(msec);
    HandedNext(events, e);
    forall i | 0 <= i < |b.freed|
      ensures OnTime(events + [e], b.freed[i])
    {
      StaysOnTime(events, e, b.freed[i]);
    }
    forall i | 0 <= i < |b.pending|
      ensures Waiting(events + [e], b.pending[i])
    {
      StaysWaiting(events, e, b.pending[i]);
    }
    if msec == 0 {
      IdsConcat(b.freed, [Freed(at, at)]);
      OneId(at);
    } else {
      PendingConcat(b.pending, [Item(at, Ttl(msec))]);
      OnePending(Item(at, Ttl(msec)));
    }
  }

  lemma OneId(at: nat)
    ensures Ids([Freed(at, at)]) == multiset{at}
  {
    assert [Freed(at, at)][1..] == [];
  }

  lemma OnePending(it: Item)
    ensures PendingIds([it]) == multiset{it.id}
  {
    assert [it][1..] == [];
  }

  /** In every run, each object is pending or freed, never both and never twice; pending
      objects keep their order and are not yet due; each free happened at once for a zero
      time to live and otherwise on exactly the sweep that its TTL, computed in 32 bits, says. */
  lemma {:induction false} RunOnTime(events: seq<Event>)
    ensures Inv(events, Run(events))
    decreases |events|
  {
    if events != [] {
      var n := |events| - 1;
      RunOnTime(events[..n]);
      assert events == events[..n] + [events[n]];
      match events[n]
      case Sweep => SweepKeepsInv(events[..n], Run(events[..n]));
      case Delete(msec) => DeleteKeepsInv(events[..n], Run(events[..n]), msec);
    }
  }

  lemma {:induction false} RemainingIds(items: seq<Item>, at: nat)
    ensures Ids(Remaining(items, at)) == PendingIds(items)
  {
    if items != [] {
      RemainingIds(items[1..], at);
      assert Remaining(items, at)[1..] == Remaining(items[1..], at);
    }
  }

  lemma {:induction false} HandedOnce(events: seq<Event>, id: nat)
    ensures Handed(events)[id] == if id < |events| && events[id].Delete? then 1 else 0
    decreases |events|
  {
    if events != [] { HandedOnce(events[..|events| - 1], id); }
  }

  /** After Exit every object handed over has been freed exactly once, and nothing else. */
  lemma ExitFreesEverythingOnce(events: seq<Event>, id: nat)
    ensures var b := Exit(Run(events), |events|);
            && b.pending == [] && Run(events).freed <= b.freed
            && Ids(b.freed)[id] == if id < |events| && events[id].Delete? then 1 else 0
  {
    var b := Run(events);
    RunOnTime(events);
    IdsConcat(b.freed, Remaining(b.pending, |events|));
    RemainingIds(b.pending, |events|);
    HandedOnce(events, id);
  }

  /** The sweep that frees an object is the ceil(TTL/1000)-th exactly when rounding the TTL up
      stays within 32 bits; a longer TTL is gone on the first sweep. */
  lemma DueWhenRounded(msec: dword)
    requires msec > 0
    ensures Due(Ttl(msec)) == (msec + 999) / 1000 <==> msec + 999 < WORD
    ensures msec + 999 >= WORD ==> Due(Ttl(msec)) == 1
  {
    if msec + 999 >= WORD {
      assert (msec + 999) % WORD == msec + 999 - WORD < 999;
    }
  }

  /** The longest TTL, some 49 days, is over on the first sweep. */
  lemma LongestTtlGoesFirst()
    ensures Run([Delete(0xffff_ffff), Sweep]).freed == [Freed(0, 1)]
  {
    var events := [Delete(0xffff_ffff), Sweep];
    assert events[..1] == [Delete(0xffff_ffff)] && events[..1][..0] == [];
    assert Ttl(0xffff_ffff) == 0;
    assert Run(events[..1]) == Bin([Item(0, 0)], []);
  }

  /** An object replaced through ThreadSafeMutable with any nonzero old_TTL outlives all but
      the last of its sweeps: the default of 2500 gives it two, and the third frees it. */
  lemma ReplacedObjectSurvives(events: seq<Event>, f: Freed)
    requires f in Run(events).freed && IsDelayed(events, f.id)
    ensures f.at < |events| && events[f.at].Sweep?
    ensures SweepsBetween(events, f.id + 1, f.at) == Due(Ttl(events[f.id].msec)) - 1
    ensures events[f.id].msec == 2500 ==> SweepsBetween(events, f.id + 1, f.at) == 2
  {
    hide Run, Waiting, Ids, PendingIds, Handed;
    RunOnTime(events);
    var i :| 0 <= i < |Run(events).freed| && Run(events).freed[i] == f;
    assert OnTime(events, f);
  }

  // ----- the sweep as a loop

  lemma PassOne(items: seq<Item>, i: nat, at: nat)
    requires i < |items|
    ensures Kept(items[i..]) ==
            (if items[i].ttl > 1 then [items[i].(ttl := items[i].ttl - 1)] else []) + Kept(items[i + 1..])
    ensures Dropped(items[i..], at) ==
            (if items[i].ttl > 1 then [] else [Freed(items[i].id, at)]) + Dropped(items[i + 1..], at)
  {
    assert items[i..][0] == items[i] && items[i..][1..] == items[i + 1..];
  }

  lemma PassNone(at: nat)
    ensures Kept([]) == [] && Dropped([], at) == []
  {
  }

  class Sweeper {
    var pending: seq<Item>
    ghost var freed: seq<Freed>

    constructor ()
      ensures pending == [] && freed == []
    {
      pending, freed := [], [];
    }

    /** _GarbagItem::Tick on item `i`: true while it must not be deleted. */
    method Tick(i: nat) returns (alive: bool)
      requires i < |pending|
      modifies this`pending
      ensures var it := old(pending)[i];
              pending == old(pending)[i := it.(ttl := if it.ttl > 0 then it.ttl - 1 else 0)]
      ensures alive <==> pending[i].ttl != 0
    {
      var it := pending[i];
      if it.ttl > 0 { it := it.(ttl := it.ttl - 1); }
      pending := pending[i := it];
      alive := it.ttl != 0;
    }

    /** One pass of _DeletionThread: tick, compact in place, shrink. */
    method SweepOnce(ghost at: nat)
      modifies this
      ensures Bin(pending, freed) == Step(old(Bin(pending, freed)), Sweep, at)
    {
      hide Kept, Dropped;
      ghost var items := pending;
      var open := 0;
      var i := 0;
      assert items[0..] == items;
      while i < |pending|
        invariant 0 <= open <= i <= |pending| == |items|
        invariant pending[i..] == items[i..]
        invariant Kept(items) == pending[..open] + Kept(items[i..])
        invariant old(freed) + Dropped(items, at) == freed + Dropped(items[i..], at)
      {
        PassOne(items, i, at);
        assert pending[i] == pending[i..][0];
        ghost var front := pending[..open];
        var alive := Tick(i);
        if alive {
          pending := pending[open := pending[i]];
          open := open + 1;
          assert pending[..open] == front + [items[i].(ttl := items[i].ttl - 1)];
        } else {
          freed := freed + [Freed(pending[i].id, at)];
          assert pending[..open] == front;
        }
        i := i + 1;
        assert pending[i..] == items[i..];
      }
      assert items[i..] == [];
      PassNone(at);
      assert freed + [] == freed && pending[..open] + [] == pending[..open];
      pending := pending[..open];
    }

    /** DeleteObject on a non-null object. */
    method DeleteObject(ghost at: nat, x: nat, msec: dword)
      requires x == at
      modifies this
      ensures Bin(pending, freed) == Step(old(Bin(pending, freed)), Delete(msec), at)
    {
      if msec == 0 {
        freed := freed + [Freed(x, at)];
        return;
      }
      pending := pending + [Item(x, (msec + 999) % WORD / 1000)];
    }

    /** The way out of _DeletionThread. */
    method DeleteRemaining(ghost at: nat)
      modifies this
      ensures Bin(pending, freed) == Exit(old(Bin(pending, freed)), at)
    {
      var i := 0;
      assert pending[0..] == pending;
      while i < |pending|
        invariant 0 <= i <= |pending| && pending == old(pending)
        invariant old(freed) + Remaining(pending, at) == freed + Remaining(pending[i..], at)
      {
        assert Remaining(pending[i..], at) == [Freed(pending[i].id, at)] + Remaining(pending[i..][1..], at);
        assert pending[i..][1..] == pending[i + 1..];
        freed := freed + [Freed(pending[i].id, at)];
        i := i + 1;
      }
      assert pending[i..] == [] && Remaining(pending[i..], at) == [];
      pending := [];
    }
  }

  /** ThreadSafeMutable, as far as replacing its object goes; `holds` is a non-null _p. */
  class Mutable {
    var holds: bool
    const bin: Sweeper
    const oldTtl: dword

    constructor (bin: Sweeper, oldTtl: dword)
      ensures !holds && this.bin == bin && this.oldTtl == oldTtl
    {
      holds, this.bin, this.oldTtl := false, bin, oldTtl;
    }

    /** EndUpdate with a new object or nullptr: the object replaced, if any, is handed to the
        sweeper with the time to live of this class. */
    method EndUpdate(replace: bool, at: nat)
      modifies this, bin
      ensures holds == (old(holds) || replace)
      ensures Bin(bin.pending, bin.freed) ==
              if replace && old(holds) then Step(old(Bin(bin.pending, bin.freed)), Delete(oldTtl), at)
              else old(Bin(bin.pending, bin.freed))
    {
      if replace {
        if holds { bin.DeleteObject(at, at, oldTtl); }
        holds := true;
      }
    }
  }
}
