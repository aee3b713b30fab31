/** TopFrequentValues of core/rt/buffer_type.h: a fixed table of values with counts, kept
    in order of count. */
module TopFrequent {

  datatype Entry<V> = Entry(val: V, count: int)

  const UNMATCHED := 0
  const MATCHED := 1
  const MATCHED_WITH_TOP := 2

  /** _Match on the table from some level on: the new table and the verdict. */
  function Match<V(==)>(t: seq<Entry<V>>, v: V): (r: (seq<Entry<V>>, int))
    ensures |r.0| == |t| && (r.1 == MATCHED_WITH_TOP ==> t != [])
  {
    if t == [] then (t, UNMATCHED)
    else if t[0].val == v then (t[0 := Entry(v, t[0].count + 1)], MATCHED_WITH_TOP)
    else if t[0].count == 0 then (t[0 := Entry(v, 1)], MATCHED_WITH_TOP)
    else
      var r := Match(t[1..], v);
      if r.1 == MATCHED_WITH_TOP && r.0[0].count > t[0].count then
        ([r.0[0], t[0]] + r.0[1..], MATCHED_WITH_TOP)
      else
        ([t[0]] + r.0, if r.1 == MATCHED_WITH_TOP then MATCHED else r.1)
  }

  function Sample<V(==)>(t: seq<Entry<V>>, v: V): (r: seq<Entry<V>>)
    ensures |r| == |t|
  {
    var r := Match(t, v);
    if r.1 != UNMATCHED || t == [] then r.0
    else
      var n := |t| - 1;
      var last := r.0[n];
      r.0[n := if last.count - 1 < 0 then Entry(v, 1) else last.(count := last.count - 1)]
  }

  function Reset<V>(k: nat, zero: V): seq<Entry<V>> { seq(k, _ => Entry(zero, 0)) }

  function Run<V(==)>(k: nat, zero: V, samples: seq<V>): (t: seq<Entry<V>>)
    ensures |t| == k
    decreases |samples|
  {
    if samples == [] then Reset(k, zero)
    else Sample(Run(k, zero, samples[..|samples| - 1]), samples[|samples| - 1])
  }

  // ----- order and distinctness

  predicate Descending<V>(t: seq<Entry<V>>) {
    (forall i :: 0 <= i < |t| ==> t[i].count >= 0)
    && forall i, j :: 0 <= i < j < |t| ==> t[i].count >= t[j].count
  }

  /** Values with a nonzero count are different. */
  predicate LiveDistinct<V(==)>(t: seq<Entry<V>>) {
    forall i, j :: 0 <= i < j < |t| && t[j].count > 0 ==> t[i].val != t[j].val
  }

  predicate Inv<V(==)>(t: seq<Entry<V>>) { Descending(t) && LiveDistinct(t) }

  /** What matching does to an ordered table: it stays ordered; the matched value, if any,
      is in it; other live values are old ones with their old counts. */
  predicate Matched<V(==)>(t: seq<Entry<V>>, v: V, r: (seq<Entry<V>>, int)) {
    && |r.0| == |t| && Inv(r.0)
    && (forall i :: 0 <= i < |t| && r.0[i].count > 0 && r.0[i].val != v ==> r.0[i] in t)
    && (forall i :: 0 <= i < |t| && r.0[i].val == v && r.0[i].count > 0 ==>
          r.0[i].count == 1 || (Entry(v, r.0[i].count - 1) in t))
    && (r.1 == UNMATCHED ==> r.0 == t && forall i :: 0 <= i < |t| ==> t[i].count > 0 && t[i].val != v)
    && (r.1 == MATCHED_WITH_TOP ==> t != [] && r.0[0] .val == v && r.0[0].count > 0)
    && (r.1 != MATCHED_WITH_TOP && t != [] ==> r.0[0] == t[0])
    && (t != [] ==> r.0[0].count <= t[0].count + 1)
  }

  lemma {:induction false} MatchKeepsOrder<V(!new)>(t: seq<Entry<V>>, v: V)
    requires Inv(t)
    ensures Matched(t, v, Match(t, v))
  {
    if t == [] {
    } else if t[0].val == v {
      MatchHere(t, v, t[0].count + 1);
    } else if t[0].count == 0 {
      MatchHere(t, v, 1);
    } else {
      var m := Match(t[1..], v);
      InvTail(t);
      MatchKeepsOrder(t[1..], v);
      if m.1 == MATCHED_WITH_TOP && m.0[0].count > t[0].count { MatchMovesUp(t, v, m); } else { MatchStays(t, v, m); }
    }
  }

  lemma InvTail<V(!new)>(t: seq<Entry<V>>)
    requires Inv(t) && t != []
    ensures Inv(t[1..])
  {
  }

  lemma MatchHere<V(!new)>(t: seq<Entry<V>>, v: V, n: int)
    requires Inv(t) && t != []
    requires (t[0].val == v && n == t[0].count + 1) || (t[0].count == 0 && n == 1)
    ensures Matched(t, v, (t[0 := Entry(v, n)], MATCHED_WITH_TOP))
  {
    var r := t[0 := Entry(v, n)];
    assert Entry(v, n - 1) in t || n == 1 by { assert t[0] in t; }
    forall i | 0 <= i < |t| && r[i].count > 0 && r[i].val != v
      ensures r[i] in t
    {
      assert r[i] == t[i];
    }
  }

  /** The entry found below overtakes the one at this level. */
  lemma MatchMovesUp<V(!new)>(t: seq<Entry<V>>, v: V, m: (seq<Entry<V>>, int))
    requires Inv(t) && t != [] && t[0].val != v && t[0].count != 0 && Matched(t[1..], v, m)
    requires m.1 == MATCHED_WITH_TOP && m.0[0].count > t[0].count
    ensures Matched(t, v, ([m.0[0], t[0]] + m.0[1..], MATCHED_WITH_TOP))
  {
    hide Inv;
    var r := [m.0[0], t[0]] + m.0[1..];
    TailIn(t);
    assert t[0] in t;
    MovesUpOrdered(t, v, m);
    SecondBelow(t);
    forall i | 0 <= i < |r| && r[i].count > 0
      ensures r[i].val != v ==> r[i] in t
      ensures r[i].val == v ==> r[i].count == 1 || Entry(v, r[i].count - 1) in t
    {
      if i > 1 { assert r[i] == m.0[i - 1]; }
    }
  }

  lemma SecondBelow<V(!new)>(t: seq<Entry<V>>)
    requires Inv(t) && |t| > 1
    ensures t[1].count <= t[0].count
  {
  }

  lemma MovesUpOrdered<V(!new)>(t: seq<Entry<V>>, v: V, m: (seq<Entry<V>>, int))
    requires Inv(t) && t != [] && t[0].val != v && t[0].count != 0 && Matched(t[1..], v, m)
    requires m.1 == MATCHED_WITH_TOP && m.0[0].count > t[0].count
    ensures Inv([m.0[0], t[0]] + m.0[1..])
  {
    var r := [m.0[0], t[0]] + m.0[1..];
    forall i | 2 <= i < |r|
      ensures r[i] == m.0[i - 1] && (r[i].count > 0 ==> r[i].val != v && r[i] in t[1..]) && r[i].count <= t[0].count
    {
      assert r[i] == m.0[i - 1];
      if r[i].count > 0 { var j :| 0 <= j < |t[1..]| && t[1..][j] == r[i]; assert t[j + 1] == r[i]; }
    }
  }

  lemma MatchStays<V(!new)>(t: seq<Entry<V>>, v: V, m: (seq<Entry<V>>, int))
    requires Inv(t) && t != [] && t[0].val != v && t[0].count != 0 && Matched(t[1..], v, m)
    requires !(m.1 == MATCHED_WITH_TOP && m.0[0].count > t[0].count)
    ensures Matched(t, v, ([t[0]] + m.0, if m.1 == MATCHED_WITH_TOP then MATCHED else m.1))
  {
    hide Inv;
    var r := [t[0]] + m.0;
    TailIn(t);
    assert t[0] in t;
    StaysOrdered(t, v, m);
    forall i | 0 <= i < |r| && r[i].count > 0
      ensures r[i].val != v ==> r[i] in t
      ensures r[i].val == v ==> r[i].count == 1 || Entry(v, r[i].count - 1) in t
    {
      if i > 0 { assert r[i] == m.0[i - 1]; }
    }
    if m.1 == UNMATCHED { StaysUnmatched(t, v, m); }
  }

  lemma StaysUnmatched<V(!new)>(t: seq<Entry<V>>, v: V, m: (seq<Entry<V>>, int))
    requires Inv(t) && t != [] && t[0].val != v && t[0].count != 0 && Matched(t[1..], v, m) && m.1 == UNMATCHED
    ensures [t[0]] + m.0 == t && forall i :: 0 <= i < |t| ==> t[i].count > 0 && t[i].val != v
  {
    hide Inv;
    PositiveHead(t);
    forall i | 0 <= i < |t|
      ensures t[i].count > 0 && t[i].val != v
    {
      if i > 0 { assert t[i] == t[1..][i - 1]; }
    }
  }

  lemma PositiveHead<V(!new)>(t: seq<Entry<V>>)
    requires Inv(t) && t != []
    ensures t[0].count >= 0
  {
  }

  lemma StaysOrdered<V(!new)>(t: seq<Entry<V>>, v: V, m: (seq<Entry<V>>, int))
    requires Inv(t) && t != [] && t[0].val != v && t[0].count != 0 && Matched(t[1..], v, m)
    requires !(m.1 == MATCHED_WITH_TOP && m.0[0].count > t[0].count)
    ensures Inv([t[0]] + m.0)
  {
    var r := [t[0]] + m.0;
    forall i | 1 <= i < |r|
      ensures r[i] == m.0[i - 1] && (r[i].count > 0 ==> r[i].val != t[0].val) && r[i].count <= t[0].count
    {
      assert r[i] == m.0[i - 1] && m.0[i - 1].count <= m.0[0].count;
      if r[i].count > 0 && r[i].val != v {
        var j :| 0 <= j < |t[1..]| && t[1..][j] == r[i];
        assert t[j + 1] == r[i];
      }
    }
  }

  lemma TailIn<V(!new)>(t: seq<Entry<V>>)
    requires t != []
    ensures forall e :: e in t[1..] ==> e in t
  {
  }

  /** Sampling keeps counts non-negative and non-increasing by index, live values distinct. */
  lemma SampleKeepsOrder<V(!new)>(t: seq<Entry<V>>, v: V)
    requires Inv(t)
    ensures Inv(Sample(t, v))
  {
    hide Match;
    MatchKeepsOrder(t, v);
  }

  lemma {:induction false} RunKeepsOrder<V(!new)>(k: nat, zero: V, samples: seq<V>)
    ensures Inv(Run(k, zero, samples))
    decreases |samples|
  {
    if samples != [] {
      var n := |samples| - 1;
      RunKeepsOrder(k, zero, samples[..n]);
      SampleKeepsOrder(Run(k, zero, samples[..n]), samples[n]);
    }
  }

  // ----- what one sample does to the counts

  /** The count of `w`, 0 when it is not in the table. */
  function CountOf<V(==)>(t: seq<Entry<V>>, w: V): int {
    if t == [] then 0 else if t[0].val == w && t[0].count > 0 then t[0].count else CountOf(t[1..], w)
  }

  lemma {:induction false} AllZero<V(!new)>(t: seq<Entry<V>>, w: V)
    requires forall i :: 0 <= i < |t| ==> t[i].count <= 0
    ensures CountOf(t, w) == 0
  {
    if t != [] { AllZero(t[1..], w); }
  }

  /** Matching fails exactly when the table is full of other values; otherwise it adds one to
      the count of the value, and to no other. */
  lemma {:induction false} MatchCounts<V(!new)>(t: seq<Entry<V>>, v: V, w: V)
    requires Inv(t)
    ensures Match(t, v).1 == UNMATCHED <==> forall i :: 0 <= i < |t| ==> t[i].val != v && t[i].count > 0
    ensures CountOf(Match(t, v).0, w) ==
            CountOf(t, w) + if Match(t, v).1 != UNMATCHED && w == v then 1 else 0
  {
    hide Match;
    MatchUnfold(t, v);
    if t == [] {
    } else if t[0].val == v || t[0].count == 0 {
      MatchHereCounts(t, v, w);
    } else {
      InvTail(t);
      MatchCounts(t[1..], v, w);
      MatchKeepsOrder(t[1..], v);
      MatchBelowCounts(t, v, w);
    }
  }

  lemma MatchHereCounts<V(!new)>(t: seq<Entry<V>>, v: V, w: V)
    requires Inv(t) && t != [] && (t[0].val == v || t[0].count == 0)
    ensures Match(t, v).1 == MATCHED_WITH_TOP
    ensures CountOf(Match(t, v).0, w) == CountOf(t, w) + if w == v then 1 else 0
  {
    var r := Match(t, v).0;
    assert r[1..] == t[1..];
    if t[0].count == 0 { AllZero(t[1..], w); }
  }

  lemma MatchBelowCounts<V(!new)>(t: seq<Entry<V>>, v: V, w: V)
    requires Inv(t) && t != [] && t[0].val != v && t[0].count != 0
    requires var m := Match(t[1..], v); Matched(t[1..], v, m)
    ensures var m := Match(t[1..], v);
            Match(t, v).1 == UNMATCHED <==> m.1 == UNMATCHED
    ensures var m := Match(t[1..], v);
            CountOf(Match(t, v).0, w) == if t[0].val == w then t[0].count else CountOf(m.0, w)
    ensures CountOf(t, w) == if t[0].val == w then t[0].count else CountOf(t[1..], w)
  {
    hide Match, Matched;
    MatchUnfold(t, v);
    PositiveHead(t);
    var m := Match(t[1..], v);
    TopIsMatched(t[1..], v, m);
    if m.1 == MATCHED_WITH_TOP && m.0[0].count > t[0].count {
      var r := [m.0[0], t[0]] + m.0[1..];
      assert r[1..] == [t[0]] + m.0[1..] && r[1..][1..] == m.0[1..];
    } else {
      var r := [t[0]] + m.0;
      assert r[1..] == m.0;
    }
  }

  lemma TopIsMatched<V(!new)>(t: seq<Entry<V>>, v: V, m: (seq<Entry<V>>, int))
    requires Matched(t, v, m)
    ensures m.1 == MATCHED_WITH_TOP ==> m.0 != [] && m.0[0].val == v
  {
  }

  /** One sample: a value that is in the table, or finds a free entry, gains one, and no other
      count changes; otherwise the last entry loses one, and no other count changes. */
  lemma SampleCounts<V(!new)>(t: seq<Entry<V>>, v: V, w: V)
    requires Inv(t) && t != []
    ensures (exists i :: 0 <= i < |t| && (t[i].val == v || t[i].count == 0)) ==>
              CountOf(Sample(t, v), w) == CountOf(t, w) + if w == v then 1 else 0
    ensures (forall i :: 0 <= i < |t| ==> t[i].val != v && t[i].count != 0) ==>
              && Sample(t, v)[..|t| - 1] == t[..|t| - 1]
              && Sample(t, v)[|t| - 1] == Entry(t[|t| - 1].val, t[|t| - 1].count - 1)
  {
    hide Match;
    MatchCounts(t, v, w);
    MatchKeepsOrder(t, v);
  }

  // ----- counts never exceed occurrences

  function Occurrences<V(==)>(samples: seq<V>, v: V): nat {
    if samples == [] then 0
    else
      var n := |samples| - 1;
      Occurrences(samples[..n], v) + if samples[n] == v then 1 else 0
  }

  /** A live value has been seen at least as often as its count says. */
  predicate Honest<V(==)>(t: seq<Entry<V>>, samples: seq<V>) {
    forall i :: 0 <= i < |t| && t[i].count > 0 ==> t[i].count <= Occurrences(samples, t[i].val)
  }

  lemma {:induction false} RunHonest<V(!new)>(k: nat, zero: V, samples: seq<V>)
    ensures Honest(Run(k, zero, samples), samples)
    decreases |samples|
  {
    if samples != [] {
      hide Match, Run;
      var n := |samples| - 1;
      var t, v := Run(k, zero, samples[..n]), samples[n];
      RunHonest(k, zero, samples[..n]);
      RunKeepsOrder(k, zero, samples[..n]);
      MatchKeepsOrder(t, v);
      RunNext(k, zero, samples);
      SampleHonest(t, v, samples);
    } else {
      RunNone<V>(k, zero);
    }
  }

  lemma RunNext<V(!new)>(k: nat, zero: V, samples: seq<V>)
    requires samples != []
    ensures Run(k, zero, samples) == Sample(Run(k, zero, samples[..|samples| - 1]), samples[|samples| - 1])
  {
  }

  lemma RunNone<V(!new)>(k: nat, zero: V)
    ensures Honest(Run(k, zero, []), [])
  {
  }

  lemma SampleHonest<V(!new)>(t: seq<Entry<V>>, v: V, samples: seq<V>)
    requires samples != [] && v == samples[|samples| - 1] && Honest(t, samples[..|samples| - 1])
    requires Matched(t, v, Match(t, v))
    ensures Honest(Sample(t, v), samples)
  {
    hide Match;
    var m := Match(t, v);
    var r := Sample(t, v);
    forall i | 0 <= i < |r| && r[i].count > 0
      ensures r[i].count <= Occurrences(samples, r[i].val)
    {
      assert r[i].count <= m.0[i].count;
      if r[i].val != v {
        assert m.0[i] in t;
        var j :| 0 <= j < |t| && t[j] == m.0[i];
      } else if r[i].count > 1 && m.1 != UNMATCHED {
        var j :| 0 <= j < |t| && t[j] == Entry(v, r[i].count - 1);
      }
    }
  }

  // ----- the majority vote

  /** With one entry: no value other than the stored one can lead by more than the count
      takes away. */
  lemma {:induction false} Balance<V(!new)>(zero: V, samples: seq<V>, v: V)
    ensures var e := Run(1, zero, samples)[0];
            e.count >= 0 && 2 * Occurrences(samples, v) <= |samples| + if e.val == v then e.count else -e.count
    decreases |samples|
  {
    hide Sample;
    if samples != [] {
      var n := |samples| - 1;
      Balance(zero, samples[..n], v);
      SampleOne(Run(1, zero, samples[..n]), samples[n]);
    }
  }

  lemma SampleOne<V(!new)>(t: seq<Entry<V>>, v: V)
    requires |t| == 1 && t[0].count >= 0
    ensures Sample(t, v)[0] ==
            if t[0].val == v then Entry(v, t[0].count + 1)
            else if t[0].count == 0 then Entry(v, 1) else t[0].(count := t[0].count - 1)
  {
    if t[0].val != v && t[0].count != 0 {
      var rest := t[1..];
      assert rest == [] && Match(rest, v) == ([], UNMATCHED);
      assert Match(t, v).0 == [t[0]];
    }
  }

  /** A value that makes up more than half of the samples is the one Get returns. */
  lemma MajorityIsTop<V(!new)>(zero: V, samples: seq<V>, v: V)
    requires 2 * Occurrences(samples, v) > |samples|
    ensures Run(1, zero, samples)[0].val == v
  {
    Balance(zero, samples, v);
  }

  // ----- the table itself

  lemma MatchUnfold<V(!new)>(t: seq<Entry<V>>, v: V)
    ensures t == [] ==> Match(t, v) == (t, UNMATCHED)
    ensures t != [] && t[0].val == v ==> Match(t, v) == (t[0 := Entry(v, t[0].count + 1)], MATCHED_WITH_TOP)
    ensures t != [] && t[0].val != v && t[0].count == 0 ==> Match(t, v) == (t[0 := Entry(v, 1)], MATCHED_WITH_TOP)
    ensures t != [] && t[0].val != v && t[0].count != 0 ==>
              var r := Match(t[1..], v);
              Match(t, v) ==
                if r.1 == MATCHED_WITH_TOP && r.0[0].count > t[0].count
                then ([r.0[0], t[0]] + r.0[1..], MATCHED_WITH_TOP)
                else ([t[0]] + r.0, if r.1 == MATCHED_WITH_TOP then MATCHED else r.1)
  {
  }

  class Table<V(==,!new)> {
    var tops: seq<Entry<V>>

    constructor (k: nat, zero: V)
      ensures tops == Reset(k, zero)
    {
      tops := Reset(k, zero);
    }

    /** _Match at level `i`, in place. */
    method MatchAt(i: nat, v: V) returns (ret: int)
      requires i <= |tops|
      modifies this
      ensures var m := Match(old(tops)[i..], v); tops == old(tops)[..i] + m.0 && ret == m.1
      decreases |tops| - i
    {
      hide Match;
      ghost var before, t := tops[..i], tops[i..];
      MatchUnfold(t, v);
      if i == |tops| { return UNMATCHED; }
      if tops[i].val == v {
        tops := tops[i := Entry(v, tops[i].count + 1)];
        return MATCHED_WITH_TOP;
      }
      if tops[i].count == 0 {
        tops := tops[i := Entry(v, 1)];
        return MATCHED_WITH_TOP;
      }
      assert t[1..] == tops[i + 1..];
      ghost var all := tops;
      ret := MatchAt(i + 1, v);
      assert tops == before + ([all[i]] + tops[i + 1..]);
      if ret == MATCHED_WITH_TOP {
        if tops[i + 1].count > tops[i].count {
          tops := tops[i := tops[i + 1]][i + 1 := tops[i]];
        } else {
          ret := MATCHED;
        }
      }
    }

    /** On an ordered table the replacement branch for a negative count is never taken. */
    method SampleValue(v: V) returns (ret: int)
      modifies this
      ensures tops == Sample(old(tops), v)
      ensures Inv(old(tops)) ==> Inv(tops) && ret == Match(old(tops), v).1
    {
      hide Match;
      assert tops[0..] == tops;
      if Inv(tops) { MatchKeepsOrder(tops, v); SampleKeepsOrder(tops, v); }
      ret := MatchAt(0, v);
      if ret == UNMATCHED && tops != [] {
        var n := |tops| - 1;
        var last := tops[n];
        last := last.(count := last.count - 1);
        tops := tops[n := last];
        if last.count < 0 {
          tops := tops[n := Entry(v, 1)];
          ret := MATCHED;
        }
      }
    }
  }
}
