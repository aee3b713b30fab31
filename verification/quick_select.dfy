/** FindTopKth of core/rt/buffer_type.h: quickselect in place, with the loop bound as it is
    written, and the exact inputs for which that bound lets the search run off the buffer. */
module QuickSelect {
  import Arith

  function CountLess(s: seq<int>, x: int): nat {
    if s == [] then 0 else CountLess(s[1..], x) + if s[0] < x then 1 else 0
  }

  function CountLeq(s: seq<int>, x: int): nat { CountLess(s, x + 1) }

  /** `x` is the k-th smallest of `s`: fewer than `k` values lie below it, at least `k` do
      not lie above it. */
  predicate IsKth(s: seq<int>, k: int, x: int) { CountLess(s, x) < k <= CountLeq(s, x) }

  lemma {:induction false} CountConcat(s: seq<int>, t: seq<int>, x: int)
    ensures CountLess(s + t, x) == CountLess(s, x) + CountLess(t, x)
  {
    if s == [] { assert s + t == t; } else { assert (s + t)[1..] == s[1..] + t; CountConcat(s[1..], t, x); }
  }

  lemma {:induction false} CountAll(s: seq<int>, x: int)
    requires forall i :: 0 <= i < |s| ==> s[i] < x
    ensures CountLess(s, x) == |s|
  {
    if s != [] { CountAll(s[1..], x); }
  }

  lemma {:induction false} CountNone(s: seq<int>, x: int)
    requires forall i :: 0 <= i < |s| ==> s[i] >= x
    ensures CountLess(s, x) == 0
  {
    if s != [] { CountNone(s[1..], x); }
  }

  lemma {:induction false} CountBound(s: seq<int>, x: int)
    ensures CountLess(s, x) <= |s|
  {
    if s != [] { CountBound(s[1..], x); }
  }

  // ----- how the rank in a range follows from the rank in a part

  /** Left part, pivot, right part. */
  predicate Split(s: seq<int>, left: seq<int>, pivot: int, right: seq<int>) {
    && s == left + [pivot] + right
    && (forall i :: 0 <= i < |left| ==> left[i] <= pivot) && (forall i :: 0 <= i < |right| ==> right[i] > pivot)
  }

  lemma CountSplit(s: seq<int>, left: seq<int>, pivot: int, right: seq<int>, x: int)
    requires Split(s, left, pivot, right)
    ensures CountLess(s, x) == CountLess(left, x) + (if pivot < x then 1 else 0) + CountLess(right, x)
  {
    CountConcat(left + [pivot], right, x);
    CountConcat(left, [pivot], x);
    assert [pivot][1..] == [];
  }

  lemma KthIsPivot(s: seq<int>, left: seq<int>, pivot: int, right: seq<int>)
    requires Split(s, left, pivot, right)
    ensures IsKth(s, |left| + 1, pivot)
  {
    CountSplit(s, left, pivot, right, pivot);
    CountSplit(s, left, pivot, right, pivot + 1);
    CountBound(left, pivot);
    CountNone(right, pivot);
    CountNone(right, pivot + 1);
    CountAll(left, pivot + 1);
  }

  lemma KthInLeft(s: seq<int>, left: seq<int>, pivot: int, right: seq<int>, k: int, x: int)
    requires Split(s, left, pivot, right) && IsKth(left, k, x) && x in left
    ensures IsKth(s, k, x)
  {
    CountSplit(s, left, pivot, right, x);
    CountSplit(s, left, pivot, right, x + 1);
    CountNone(right, x);
  }

  lemma KthInRight(s: seq<int>, left: seq<int>, pivot: int, right: seq<int>, k: int, x: int)
    requires Split(s, left, pivot, right) && IsKth(right, k, x) && x in right
    ensures IsKth(s, k + |left| + 1, x)
  {
    CountSplit(s, left, pivot, right, x);
    CountSplit(s, left, pivot, right, x + 1);
    CountAll(left, x);
    CountAll(left, x + 1);
  }

  // ----- permutations of a range

  predicate Permuted(s: seq<int>, t: seq<int>) { multiset(s) == multiset(t) }

  lemma PermutedBound(s: seq<int>, t: seq<int>)
    requires Permuted(s, t)
    ensures |s| == |t|
    ensures forall i :: 0 <= i < |t| ==> t[i] in s
  {
    assert |multiset(s)| == |s| && |multiset(t)| == |t|;
    forall i | 0 <= i < |t|
      ensures t[i] in s
    {
      assert t[i] in multiset(t);
    }
  }

  method Swap(a: array<int>, i: nat, j: nat)
    requires i <= j < a.Length
    modifies a
    ensures a[i] == old(a[j]) && a[j] == old(a[i])
    ensures forall m :: 0 <= m < a.Length && m != i && m != j ==> a[m] == old(a[m])
    ensures Permuted(a[..], old(a[..]))
  {
    a[i], a[j] := a[j], a[i];
  }

  const SIZE: nat := 0x1_0000_0000_0000_0000   // SIZE_T has 64 bits

  /** The values not above `x`, in order. */
  function AtMost(s: seq<int>, x: int): seq<int> {
    if s == [] then []
    else AtMost(s[..|s| - 1], x) + if s[|s| - 1] <= x then [s[|s| - 1]] else []
  }

  lemma AtMostNext(s: seq<int>, t: seq<int>, j: nat, x: int)
    requires j < |s| && t == s[..j + 1]
    ensures AtMost(t, x) == AtMost(s[..j], x) + if s[j] <= x then [s[j]] else []
  {
    assert t[..j] == s[..j];
  }

  /** partition: values not above the last one first, then that one, then the rest. The loop
      bound j <= r - 1 is unsigned: at r == 0 it lets every j pass, and the loop runs off the
      buffer. */
  method Partition(a: array<int>, l: nat, r: nat) returns (i: nat, ranOff: bool)
    requires l <= r < a.Length < SIZE
    modifies a
    ensures ranOff <==> r == 0
    ensures !ranOff ==>
              && l <= i <= r && a[i] == old(a[r])
              && (forall m :: l <= m < i ==> a[m] <= a[i])
              && (forall m :: i < m <= r ==> a[m] > a[i])
              && (forall m :: 0 <= m < a.Length && !(l <= m <= r) ==> a[m] == old(a[m]))
              && a[l..i] == AtMost(old(a[l..r]), old(a[r]))
    ensures Permuted(a[..], old(a[..]))
  {
    hide Permuted, AtMost, PartlyDone;
    var x := a[r];
    ghost var was := a[..];
    PermutedRefl(was);
    i := l;
    if r > 0 { NothingDone(was, l, r); }
    var j := l;
    var bound := (r + SIZE - 1) % SIZE;
    BoundAsWritten(r);
    while j <= bound
      invariant l <= i <= j <= a.Length
      invariant r > 0 ==> j <= r && PartlyDone(a[..], was, l, i, j, r, x)
      invariant Permuted(a[..], was)
      decreases bound + 1 - j
    {
      if j >= a.Length { return i, true; }
      ghost var before := a[..];
      if !(x < a[j]) {
        Swap(a, i, j);
        PermutedTrans(a[..], before, was);
        if r > 0 { RoundSwaps(before, a[..], was, l, i, j, r, x); }
        i := i + 1;
      } else if r > 0 {
        RoundSkips(before, was, l, i, j, r, x);
      }
      j := j + 1;
    }
    ghost var before := a[..];
    Swap(a, i, r);
    PermutedTrans(a[..], before, was);
    ranOff := false;
    LastSwap(before, a[..], was, l, i, r, x);
    assert a[..][l..i] == a[l..i] && was[l..r] == old(a[l..r]);
  }

  lemma LastSwap(s: seq<int>, t: seq<int>, was: seq<int>, l: nat, i: nat, r: nat, x: int)
    requires l <= i <= r < |s| == |was| == |t| && PartlyDone(s, was, l, i, r, r, x)
    requires t[i] == s[r] && t[r] == s[i] && forall m :: 0 <= m < |s| && m != i && m != r ==> t[m] == s[m]
    ensures t[i] == was[r] && t[l..i] == AtMost(was[l..r], was[r])
    ensures (forall m :: l <= m < i ==> t[m] <= t[i]) && (forall m :: i < m <= r ==> t[m] > t[i])
    ensures forall m :: 0 <= m < |t| && !(l <= m <= r) ==> t[m] == was[m]
  {
    hide AtMost;
    assert t[l..i] == s[l..i];
  }

  /** The part of the range before `j` has been sorted out. */
  predicate PartlyDone(s: seq<int>, was: seq<int>, l: nat, i: nat, j: nat, r: nat, x: int)
    requires l <= i <= j <= r < |s| == |was|
  {
    && s[r] == x == was[r] && s[l..i] == AtMost(was[l..j], x)
    && (forall m :: l <= m < i ==> s[m] <= x) && (forall m :: i <= m < j ==> s[m] > x)
    && (forall m :: 0 <= m < |s| && !(l <= m < j) ==> s[m] == was[m])
  }

  lemma NothingDone(was: seq<int>, l: nat, r: nat)
    requires l <= r < |was|
    ensures PartlyDone(was, was, l, l, l, r, was[r])
  {
    assert was[l..l] == [];
  }

  lemma RoundSwaps(s: seq<int>, t: seq<int>, was: seq<int>, l: nat, i: nat, j: nat, r: nat, x: int)
    requires l <= i <= j < r < |s| == |was| == |t| && PartlyDone(s, was, l, i, j, r, x) && s[j] <= x
    requires t[i] == s[j] && t[j] == s[i] && forall m :: 0 <= m < |s| && m != i && m != j ==> t[m] == s[m]
    ensures PartlyDone(t, was, l, i + 1, j + 1, r, x)
  {
    hide AtMost;
    AtMostNext(was[l..r], was[l..j + 1], j - l, x);
    assert was[l..r][..j - l] == was[l..j];
    assert t[l..i + 1] == s[l..i] + [s[j]];
  }

  lemma RoundSkips(s: seq<int>, was: seq<int>, l: nat, i: nat, j: nat, r: nat, x: int)
    requires l <= i <= j < r < |s| == |was| && PartlyDone(s, was, l, i, j, r, x) && s[j] > x
    ensures PartlyDone(s, was, l, i, j + 1, r, x)
  {
    hide AtMost;
    AtMostNext(was[l..r], was[l..j + 1], j - l, x);
    assert was[l..r][..j - l] == was[l..j];
  }

  /** The loop bound as written is the intended j < r exactly when r is not 0; at 0 it lets
      every j pass. */
  lemma BoundAsWritten(r: nat)
    requires r < SIZE
    ensures (forall j: nat :: j < SIZE ==> (Passes(j, r) <==> j < r)) <==> r != 0
    ensures r == 0 ==> (r + SIZE - 1) % SIZE == SIZE - 1
    ensures r != 0 ==> (r + SIZE - 1) % SIZE == r - 1
  {
    if r != 0 {
      Arith.DivModUnique(r + SIZE - 1, SIZE, 1, r - 1);
      forall j: nat | j < SIZE
        ensures Passes(j, r) <==> j < r
      {
      }
    } else {
      assert Passes(0, 0);
    }
  }

  predicate Passes(j: nat, r: nat) { j <= (r + SIZE - 1) % SIZE }

  /** Permuting the whole array without touching anything outside a range permutes the range. */
  lemma RangePermuted(s: seq<int>, t: seq<int>, lo: nat, hi: nat)
    requires lo <= hi <= |s| == |t| && Permuted(s, t)
    requires forall m :: 0 <= m < |s| && !(lo <= m < hi) ==> s[m] == t[m]
    ensures Permuted(s[lo..hi], t[lo..hi])
  {
    assert s[..lo] == t[..lo] && s[hi..] == t[hi..];
    assert s == s[..lo] + s[lo..hi] + s[hi..];
    assert t == t[..lo] + t[lo..hi] + t[hi..];
    MiddlePermuted(s[..lo], s[lo..hi], t[lo..hi], s[hi..]);
  }

  lemma CountsAdd(a: seq<int>, b: seq<int>, c: seq<int>, v: int)
    ensures multiset(a + b + c)[v] == multiset(a)[v] + multiset(b)[v] + multiset(c)[v]
  {
  }

  lemma MiddlePermuted(a: seq<int>, b: seq<int>, b': seq<int>, c: seq<int>)
    requires Permuted(a + b + c, a + b' + c)
    ensures Permuted(b, b')
  {
    forall v: int
      ensures multiset(b)[v] == multiset(b')[v]
    {
      CountsAdd(a, b, c, v);
      CountsAdd(a, b', c, v);
    }
  }

  /** The search for the smallest value keeps narrowing the range down to its first element. */
  predicate Narrows(s: seq<int>)
    decreases |s|
  {
    s != [] && (|s| == 1 || (|AtMost(s[..|s| - 1], s[|s| - 1])| < |s|
                             && Narrows(AtMost(s[..|s| - 1], s[|s| - 1]))))
  }

  lemma {:induction false} AtMostShorter(s: seq<int>, x: int)
    ensures |AtMost(s, x)| <= |s|
  {
    if s != [] { AtMostShorter(s[..|s| - 1], x); }
  }

  lemma NarrowsNext(s: seq<int>)
    requires |s| >= 2
    ensures Narrows(s) <==> Narrows(AtMost(s[..|s| - 1], s[|s| - 1]))
    ensures |AtMost(s[..|s| - 1], s[|s| - 1])| < |s|
  {
    AtMostShorter(s[..|s| - 1], s[|s| - 1]);
  }

  /** kth: the position of the k-th smallest value of a[l..r], which the search permutes. It
      runs off the buffer when it gets to partition the first element alone; for k >= 2, and
      away from the start of the array, it never does. */
  method Kth(a: array<int>, l: nat, r: nat, k: int) returns (p: nat, ranOff: bool)
    requires l <= r < a.Length < SIZE && 1 <= k <= r - l + 1
    modifies a
    ensures ranOff <==> l == 0 && k == 1 && Narrows(old(a[..r + 1]))
    ensures !ranOff ==>
              && l <= p <= r && IsKth(a[l..r + 1], k, a[p])
              && (forall m :: 0 <= m < a.Length && !(l <= m <= r) ==> a[m] == old(a[m]))
    ensures Permuted(a[..], old(a[..]))
    decreases r - l
  {
    hide IsKth, Permuted, Narrows, AtMost;
    ghost var was := a[..];
    var pos;
    pos, ranOff := Partition(a, l, r);
    ghost var s := a[..];
    PermutedRefl(s);
    p := 0;
    NarrowsEnds(was[..r + 1]);
    if ranOff { return; }
    if l == 0 {
      NarrowsNext(was[..r + 1]);
      FirstPart(was, s, pos, r);
      NarrowsEnds(s[..pos]);
    }
    if pos - l == k - 1 {
      p := pos;
      RangeSplit(s, s, l, pos, r);
      KthIsPivot(s[l..r + 1], s[l..pos], s[pos], s[pos + 1..r + 1]);
    } else if pos - l > k - 1 {
      assert s[..pos - 1 + 1] == s[..pos];
      p, ranOff := Kth(a, l, pos - 1, k);
      if !ranOff {
        assert a[..][l..pos] == a[l..pos] && a[..][l..r + 1] == a[l..r + 1];
        LeftPart(s, a[..], l, pos, r, k, p);
      }
    } else {
      p, ranOff := Kth(a, pos + 1, r, k - pos + l - 1);
      assert a[..][pos + 1..r + 1] == a[pos + 1..r + 1] && a[..][l..r + 1] == a[l..r + 1];
      RightPart(s, a[..], l, pos, r, k - pos + l - 1, p);
    }
    PermutedTrans(a[..], s, was);
  }

  lemma NarrowsEnds(s: seq<int>)
    ensures s == [] ==> !Narrows(s)
    ensures |s| == 1 ==> Narrows(s)
  {
  }

  /** Partitioning from the start of the array leaves the next stage of Narrows in front. */
  lemma FirstPart(was: seq<int>, s: seq<int>, pos: nat, r: nat)
    requires pos <= r < |s| == |was| && s[0..pos] == AtMost(was[0..r], was[r])
    ensures s[..pos] == AtMost(was[..r + 1][..r], was[..r + 1][r])
  {
    assert was[0..r] == was[..r + 1][..r];
  }

  /** What the search of the left part found is right for the whole range. */
  lemma LeftPart(s: seq<int>, t: seq<int>, l: nat, pos: nat, r: nat, k: int, p: nat)
    requires l <= p < pos <= r < |s| == |t| && Permuted(t, s) && IsKth(t[l..pos], k, t[p])
    requires forall m :: l <= m < pos ==> s[m] <= s[pos]
    requires forall m :: pos < m <= r ==> s[m] > s[pos]
    requires forall m :: 0 <= m < |s| && !(l <= m < pos) ==> t[m] == s[m]
    ensures IsKth(t[l..r + 1], k, t[p])
  {
    hide IsKth, Permuted, Split;
    RangeSplit(s, t, l, pos, r);
    assert t[l..pos][p - l] == t[p];
    KthInLeft(t[l..r + 1], t[l..pos], t[pos], t[pos + 1..r + 1], k, t[p]);
  }

  lemma RightPart(s: seq<int>, t: seq<int>, l: nat, pos: nat, r: nat, k: int, p: nat)
    requires l <= pos < p <= r < |s| == |t| && Permuted(t, s) && IsKth(t[pos + 1..r + 1], k, t[p])
    requires forall m :: l <= m < pos ==> s[m] <= s[pos]
    requires forall m :: pos < m <= r ==> s[m] > s[pos]
    requires forall m :: 0 <= m < |s| && !(pos < m <= r) ==> t[m] == s[m]
    ensures IsKth(t[l..r + 1], k + (pos - l) + 1, t[p])
  {
    hide IsKth, Permuted, Split;
    RangeSplit(s, t, l, pos, r);
    assert t[pos + 1..r + 1][p - pos - 1] == t[p];
    KthInRight(t[l..r + 1], t[l..pos], t[pos], t[pos + 1..r + 1], k, t[p]);
  }

  lemma PermutedRefl(s: seq<int>)
    ensures Permuted(s, s)
  {
  }

  lemma PermutedSym(s: seq<int>, t: seq<int>)
    requires Permuted(s, t)
    ensures Permuted(t, s)
  {
  }

  lemma PermutedTrans(s: seq<int>, t: seq<int>, u: seq<int>)
    requires Permuted(s, t) && Permuted(t, u)
    ensures Permuted(s, u)
  {
  }

  /** After searching one side of a partitioned range it is still partitioned. */
  lemma RangeSplit(s: seq<int>, t: seq<int>, l: nat, pos: nat, r: nat)
    requires l <= pos <= r < |s| == |t| && Permuted(t, s)
    requires forall m :: l <= m < pos ==> s[m] <= s[pos]
    requires forall m :: pos < m <= r ==> s[m] > s[pos]
    requires (forall m :: 0 <= m < |s| && !(l <= m < pos) ==> t[m] == s[m])
             || (forall m :: 0 <= m < |s| && !(pos < m <= r) ==> t[m] == s[m])
    ensures Split(t[l..r + 1], t[l..pos], t[pos], t[pos + 1..r + 1]) && t[pos] == s[pos]
  {
    assert t[l..r + 1] == t[l..pos] + [t[pos]] + t[pos + 1..r + 1];
    if forall m :: 0 <= m < |s| && !(l <= m < pos) ==> t[m] == s[m] {
      RangePermuted(t, s, l, pos);
      PermutedBound(s[l..pos], t[l..pos]);
    } else {
      RangePermuted(t, s, pos + 1, r + 1);
      PermutedBound(s[pos + 1..r + 1], t[pos + 1..r + 1]);
    }
  }

  /** FindTopKth on the whole array, with the loop bound as written: right for every k >= 2,
      and for k == 1 exactly when the search does not narrow down to the first element. */
  method FindTopKth(a: array<int>, k: int) returns (p: nat, ranOff: bool)
    requires 1 <= k <= a.Length < SIZE
    modifies a
    ensures ranOff <==> k == 1 && Narrows(old(a[..]))
    ensures !ranOff ==> p < a.Length && IsKth(a[..], k, a[p])
    ensures Permuted(a[..], old(a[..]))
  {
    hide IsKth, Permuted, Narrows;
    assert a[..a.Length] == a[..];
    p, ranOff := Kth(a, 0, a.Length - 1, k);
    assert a[0..a.Length] == a[..];
  }

  // ----- which arrays narrow

  /** The values of `b` are greater than `m` and than some value of `c`, and `m` is the
      smallest of all. */
  ghost predicate Parts(b: seq<int>, m: int, c: seq<int>) {
    && (forall v :: v in b ==> v > m) && (forall v :: v in c ==> v >= m)
    && forall v :: v in b ==> exists w :: w in c && w < v
  }

  /** `f` is the first place of the smallest value, and behind it there is a value smaller
      than each one before it. */
  ghost predicate EarlyMin(s: seq<int>, f: nat) { f < |s| && Parts(s[..f], s[f], s[f + 1..]) }

  lemma {:induction false} AtMostIn(s: seq<int>, x: int, v: int)
    ensures v in AtMost(s, x) <==> v in s && v <= x
  {
    if s != [] {
      var n := |s| - 1;
      AtMostIn(s[..n], x, v);
      assert s == s[..n] + [s[n]];
    }
  }

  lemma {:induction false} AtMostConcat(s: seq<int>, t: seq<int>, x: int)
    ensures AtMost(s + t, x) == AtMost(s, x) + AtMost(t, x)
    decreases |t|
  {
    if t == [] {
      assert s + t == s;
    } else {
      var n := |t| - 1;
      AtMostConcat(s, t[..n], x);
      assert (s + t)[..|s + t| - 1] == s + t[..n];
    }
  }

  /** The place in `t` of the value that is at `f` among those not above `x`. */
  lemma {:induction false} AtMostPlace(t: seq<int>, x: int, f: nat) returns (g: nat)
    requires f < |AtMost(t, x)|
    ensures g < |t| && t[g] == AtMost(t, x)[f]
    ensures AtMost(t[..g], x) == AtMost(t, x)[..f] && AtMost(t[g + 1..], x) == AtMost(t, x)[f + 1..]
  {
    var n := |t| - 1;
    var u := AtMost(t[..n], x);
    if f == |u| {
      g := n;
      assert AtMost(t, x)[..f] == u && t[g + 1..] == [];
    } else {
      g := AtMostPlace(t[..n], x, f);
      assert t[..n][..g] == t[..g] && t[..n][g + 1..] == t[g + 1..n];
      AtMostNext(t[g + 1..], t[g + 1..], n - g - 1, x);
      assert t[g + 1..][..n - g - 1] == t[g + 1..n];
    }
  }

  /** One partition step keeps the property, in both directions. */
  lemma EarlyMinKept(s: seq<int>, f: nat) returns (g: nat)
    requires |s| >= 2
    requires EarlyMin(AtMost(s[..|s| - 1], s[|s| - 1]), f)
    ensures EarlyMin(s, g)
  {
    hide AtMost;
    var n := |s| - 1;
    var t, x := s[..n], s[n];
    g := AtMostPlace(t, x, f);
    var b, m, c := t[..g], t[g], t[g + 1..];
    assert s[..g] == b && s[g] == m && s[g + 1..] == c + [x];
    AtMostIn(t, x, m);
    assert m in AtMost(t, x);
    forall v | v in b
      ensures v > m && exists w :: w in c + [x] && w < v
    {
      AtMostIn(b, x, v);
      if v > x {
        assert x in c + [x];
      } else {
        var w :| w in AtMost(c, x) && w < v;
        AtMostIn(c, x, w);
        assert w in c + [x];
      }
    }
    forall v | v in c + [x]
      ensures v >= m
    {
      AtMostIn(c, x, v);
    }
  }

  lemma BehindNonempty(b: seq<int>, m: int, c: seq<int>)
    requires Parts(b, m, c) && b != []
    ensures c != []
  {
    var v := b[0];
    assert v in b;
    var w :| w in c && w < v;
  }

  lemma EarlyMinStays(s: seq<int>, f: nat) returns (g: nat)
    requires |s| >= 2 && EarlyMin(s, f)
    ensures EarlyMin(AtMost(s[..|s| - 1], s[|s| - 1]), g)
  {
    hide AtMost;
    var n := |s| - 1;
    var t, x := s[..n], s[n];
    if s[..f] != [] { BehindNonempty(s[..f], s[f], s[f + 1..]); }
    var b, m, c := s[..f], s[f], s[f + 1..n];
    assert t == b + ([m] + c) && s[f + 1..] == c + [x];
    assert x in s[f + 1..];
    AtMostConcat(b, [m] + c, x);
    AtMostConcat([m], c, x);
    AtMostOne(m, x);
    g := |AtMost(b, x)|;
    var u := AtMost(t, x);
    assert u == AtMost(b, x) + [m] + AtMost(c, x);
    assert u[..g] == AtMost(b, x) && u[g + 1..] == AtMost(c, x);
    forall v | v in AtMost(b, x)
      ensures v > m && exists w :: w in AtMost(c, x) && w < v
    {
      AtMostIn(b, x, v);
      assert v in s[..f];
      var w :| w in s[f + 1..] && w < v;
      assert w in c + [x] && w != x;
      assert w in c;
      AtMostIn(c, x, w);
    }
    forall v | v in AtMost(c, x)
      ensures v >= m
    {
      AtMostIn(c, x, v);
      assert v in c + [x];
    }
  }

  lemma AtMostOne(m: int, x: int)
    requires m <= x
    ensures AtMost([m], x) == [m]
  {
    assert [m][..0] == [];
  }

  /** The failing arrays without the algorithm: the first smallest value has something behind
      it that is smaller than everything before it. */
  lemma {:induction false} NarrowsIff(s: seq<int>)
    ensures Narrows(s) <==> exists f :: EarlyMin(s, f)
    decreases |s|
  {
    hide AtMost, Narrows, EarlyMin;
    if |s| <= 1 {
      NarrowsEnds(s);
      OneIsEarly(s);
    } else {
      var u := AtMost(s[..|s| - 1], s[|s| - 1]);
      NarrowsNext(s);
      NarrowsIff(u);
      if exists f :: EarlyMin(u, f) {
        var f: nat :| EarlyMin(u, f);
        var g := EarlyMinKept(s, f);
      }
      if exists f :: EarlyMin(s, f) {
        var f: nat :| EarlyMin(s, f);
        var g := EarlyMinStays(s, f);
      }
    }
  }

  lemma OneIsEarly(s: seq<int>)
    requires |s| <= 1
    ensures (exists f :: EarlyMin(s, f)) <==> |s| == 1
  {
    if |s| == 1 { assert EarlyMin(s, 0); }
  }

  /** Looking for the smallest of one value, or of two in order, runs off the buffer; of two
      out of order it does not. */
  lemma SmallestOfTwo(x: int, y: int)
    ensures Narrows([x])
    ensures Narrows([x, y]) <==> x <= y
  {
    hide Narrows;
    var s := [x, y];
    NarrowsEnds([x]);
    NarrowsEnds([]);
    NarrowsNext(s);
    assert s[..1] == [x] && [x][..0] == [];
    assert AtMost([x], y) == if x <= y then [x] else [];
  }

  // ----- what the k-th smallest means

  predicate Sorted(s: seq<int>) { forall i, j :: 0 <= i < j < |s| ==> s[i] <= s[j] }

  lemma {:induction false} CountRemove(s: seq<int>, j: nat, x: int)
    requires j < |s|
    ensures CountLess(s, x) == CountLess(s[..j] + s[j + 1..], x) + if s[j] < x then 1 else 0
  {
    assert s == s[..j] + ([s[j]] + s[j + 1..]);
    CountConcat(s[..j], [s[j]] + s[j + 1..], x);
    CountConcat(s[..j], s[j + 1..], x);
    assert ([s[j]] + s[j + 1..])[1..] == s[j + 1..];
  }

  lemma RemoveOne(t: seq<int>, j: nat)
    requires j < |t|
    ensures multiset(t[..j] + t[j + 1..]) == multiset(t) - multiset{t[j]}
  {
    assert t == t[..j] + [t[j]] + t[j + 1..];
  }

  lemma PermutedRest(s: seq<int>, t: seq<int>, j: nat)
    requires Permuted(s, t) && s != [] && j < |t| && t[j] == s[0]
    ensures Permuted(s[1..], t[..j] + t[j + 1..])
  {
    RemoveOne(t, j);
    var a, b := multiset(s[1..]), multiset(s);
    assert s == [s[0]] + s[1..];
    assert b == multiset{s[0]} + a;
  }

  lemma {:induction false} CountPermuted(s: seq<int>, t: seq<int>, x: int)
    requires Permuted(s, t)
    ensures CountLess(s, x) == CountLess(t, x)
    decreases |s|
  {
    hide CountLess, Permuted;
    PermutedSym(s, t);
    PermutedBound(t, s);
    if s == [] {
      assert t == [];
    } else {
      var j :| 0 <= j < |t| && t[j] == s[0];
      var t' := t[..j] + t[j + 1..];
      PermutedRest(s, t, j);
      assert s[..0] + s[1..] == s[1..];
      CountPermuted(s[1..], t', x);
      CountRemove(t, j, x);
      CountRemove(s, 0, x);
    }
  }

  /** The value found is the one at index k - 1 once the array is sorted. */
  lemma KthIsSortedElement(s: seq<int>, t: seq<int>, k: nat, x: int)
    requires Permuted(s, t) && Sorted(t) && 1 <= k <= |t| && IsKth(s, k, x)
    ensures x == t[k - 1]
  {
    CountPermuted(s, t, x);
    CountPermuted(s, t, x + 1);
    var v := t[k - 1];
    if v < x {
      assert t == t[..k] + t[k..];
      CountConcat(t[..k], t[k..], x);
      CountAll(t[..k], x);
      assert false;
    }
    if v > x {
      assert t == t[..k - 1] + t[k - 1..];
      CountConcat(t[..k - 1], t[k - 1..], x + 1);
      CountNone(t[k - 1..], x + 1);
      CountBound(t[..k - 1], x + 1);
      assert false;
    }
  }
}
