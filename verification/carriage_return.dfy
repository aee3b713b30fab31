/** Terminal carriage-return folding of core/os/high_level.cpp. */
module CarriageReturn {
  const CR: char := '\r'
  const LF: char := '\n'

  /** `s` up to and including its last newline. */
  function Keep(s: string): string {
    if s == "" || s[|s| - 1] == LF then s else Keep(s[..|s| - 1])
  }

  predicate Pending(s: string) { s != "" && s[|s| - 1] == CR }

  /** One character: a carriage return that was not followed by a newline erases back to
      the last newline as soon as the next character is known. */
  function Step(out: string, c: char): string {
    if Pending(out) && c != LF then Keep(out) + [c] else out + [c]
  }

  function Fold(out: string, add: string): string {
    if add == "" then out else Step(Fold(out, add[..|add| - 1]), add[|add| - 1])
  }

  // ----- facts about Keep and Fold

  lemma KeepAppend(s: string, c: char)
    ensures Keep(s + [c]) == if c == LF then s + [c] else Keep(s)
  {
    assert (s + [c])[..|s|] == s;
  }

  lemma {:induction false} KeepPlain(s: string, t: string)
    requires forall i :: 0 <= i < |t| ==> t[i] != LF
    ensures Keep(s + t) == Keep(s)
    decreases |t|
  {
    if t == "" {
      assert s + t == s;
    } else {
      var n := |t| - 1;
      assert s + t == (s + t[..n]) + [t[n]];
      KeepAppend(s + t[..n], t[n]);
      KeepPlain(s, t[..n]);
    }
  }

  lemma {:induction false} KeepIdempotent(s: string)
    ensures Keep(Keep(s)) == Keep(s) && !Pending(Keep(s))
  {
    if s != "" && s[|s| - 1] != LF { KeepIdempotent(s[..|s| - 1]); }
  }

  lemma FoldNext(out: string, add: string, p: nat)
    requires p < |add|
    ensures Fold(out, add[..p + 1]) == Step(Fold(out, add[..p]), add[p])
  {
    assert add[..p + 1][..p] == add[..p];
  }

  lemma FoldNothing(out: string, add: string)
    ensures Fold(out, add[..0]) == out
  {
  }

  /** Characters that are neither return nor newline are just appended. */
  lemma {:induction false} FoldPlain(out: string, add: string, p: nat)
    requires p <= |add| && !Pending(out) && forall i :: 0 <= i < p ==> add[i] != CR && add[i] != LF
    ensures Fold(out, add[..p]) == out + add[..p] && !Pending(out + add[..p])
  {
    if p == 0 {
      assert out + add[..0] == out;
    } else {
      FoldPlain(out, add, p - 1);
      FoldNext(out, add, p - 1);
      assert out + add[..p] == (out + add[..p - 1]) + [add[p - 1]];
    }
  }

  /** Folding two pieces in turn is folding them together. */
  lemma {:induction false} FoldConcat(out: string, a: string, b: string)
    ensures Fold(out, a + b) == Fold(Fold(out, a), b)
    decreases |b|
  {
    if b == "" {
      assert a + b == a;
    } else {
      var n := |b| - 1;
      assert (a + b)[..|a + b| - 1] == a + b[..n];
      FoldConcat(out, a, b[..n]);
    }
  }

  /** What folding means for lines of text: behind complete lines, `a`, a return and `b` show
      `b` alone; a return and a newline end the line. */
  lemma FoldOverwrites(done: string, a: string, b: string)
    requires done == "" || done[|done| - 1] == LF
    requires (forall i :: 0 <= i < |a| ==> a[i] != CR && a[i] != LF) && b != ""
    requires forall i :: 0 <= i < |b| ==> b[i] != CR && b[i] != LF
    ensures Fold(done, a + [CR] + b) == done + b
    ensures Fold(done, a + [CR, LF] + b) == done + a + [CR, LF] + b
  {
    hide Fold, Step;
    FoldPlain(done, a, |a|);
    assert a[..|a|] == a;
    FoldConcat(done, a, [CR]);
    FoldConcat(done, a + [CR], b);
    FoldOne(done + a, CR);
    KeepPlain(done, a + [CR]);
    assert done + (a + [CR]) == (done + a) + [CR];
    FoldBehindReturn((done + a) + [CR], b, done);
    FoldConcat(done, a, [CR, LF]);
    FoldConcat(done, a + [CR, LF], b);
    FoldTwo(done + a, CR, LF);
    TwoSteps(done + a);
    FoldPlain((done + a) + [CR, LF], b, |b|);
    assert b[..|b|] == b && (done + a) + [CR, LF] + b == done + a + [CR, LF] + b;
  }

  lemma FoldOne(out: string, c: char)
    ensures Fold(out, [c]) == Step(out, c) && (!Pending(out) ==> Step(out, c) == out + [c])
  {
    assert [c][..0] == "";
  }

  lemma TwoSteps(out: string)
    requires !Pending(out)
    ensures Step(Step(out, CR), LF) == out + [CR, LF]
  {
    assert (out + [CR]) + [LF] == out + [CR, LF];
  }

  /** Plain text behind a pending return takes the place of the unfinished line. */
  lemma FoldBehindReturn(out: string, b: string, kept: string)
    requires Pending(out) && Keep(out) == kept && !Pending(kept) && b != ""
    requires forall i :: 0 <= i < |b| ==> b[i] != CR && b[i] != LF
    ensures Fold(out, b) == kept + b
  {
    hide Fold, Keep;
    FoldConcat(out, b[..1], b[1..]);
    assert b[..1] == [b[0]] && b[..1] + b[1..] == b;
    FoldOne(out, b[0]);
    assert Step(out, b[0]) == kept + [b[0]];
    FoldPlain(kept + [b[0]], b[1..], |b| - 1);
    assert b[1..][..|b| - 1] == b[1..] && kept + [b[0]] + b[1..] == kept + b;
  }

  /** The extra return costs a line: "a" and then a newline sent as CR LF, cut behind the
      "a" while the return is already in memory. */
  lemma MisledLosesLine()
    ensures Fold(Fold("", "a") + [CR], [CR, LF]) == [CR, LF]
    ensures Fold("", "a" + [CR, LF]) == "a" + [CR, LF]
  {
    FoldTwo("a" + [CR], CR, LF);
    FoldTwo("a", CR, LF);
    FoldConcat("", "a", [CR, LF]);
    assert "a"[..0] == "" && Fold("", "a") == "a";
    assert ("a" + [CR])[..1] == "a" && "a"[..0] == "" && Keep("a") == "" && Keep("a" + [CR]) == "";
  }

  lemma FoldTwo(out: string, a: char, b: char)
    ensures Fold(out, [a, b]) == Step(Step(out, a), b)
  {
    hide Keep, Pending;
    FoldNothing(out, [a, b]);
    FoldNext(out, [a, b], 0);
    FoldNext(out, [a, b], 1);
    assert [a, b][..2] == [a, b];
  }

  // ----- the pointer-based routine

  /** The character a pointer at `i` sees: `next` is the byte after the fragment. */
  function At(add: string, next: char, i: nat): char
    requires i <= |add|
  {
    if i < |add| then add[i] else next
  }

  predicate NoBreak(s: string) { forall i :: 0 <= i < |s| ==> s[i] != CR && s[i] != LF }

  /** The routine reads one byte past a fragment without line breaks, and takes a return
      found there for its own. */
  predicate Misled(out: string, add: string, next: char) {
    add != "" && !Pending(out) && NoBreak(add) && next == CR
  }

  /** The main loop's view: `output` and the uncopied part of `add` before `p`. */
  predicate Tracks(out: string, add: string, output: string, copied: nat, p: nat)
    requires copied <= p <= |add|
  {
    var cur := output + add[copied..p];
    if p < |add| then Fold(out, add[..p + 1]) == cur + [add[p]] else Fold(out, add) == cur
  }

  lemma CurExtends(output: string, add: string, copied: nat, p: nat)
    requires copied <= p < |add|
    ensures output + add[copied..p + 1] == (output + add[copied..p]) + [add[p]]
  {
  }

  lemma TrackPlain(out: string, add: string, output: string, copied: nat, p: nat)
    requires copied <= p < |add| && add[p] != CR && Tracks(out, add, output, copied, p)
    ensures Tracks(out, add, output, copied, p + 1)
    ensures Keep(output + add[copied..p + 1]) ==
            if add[p] == LF then output + add[copied..p + 1] else Keep(output + add[copied..p])
  {
    hide Fold, Keep;
    CurExtends(output, add, copied, p);
    KeepAppend(output + add[copied..p], add[p]);
    if p + 1 < |add| { FoldNext(out, add, p + 1); } else { assert add[..p + 1] == add; }
  }

  lemma TrackReturnNewline(out: string, add: string, output: string, copied: nat, p: nat)
    requires copied <= p && p + 1 < |add| && add[p] == CR && add[p + 1] == LF && Tracks(out, add, output, copied, p)
    ensures Tracks(out, add, output, copied, p + 2)
    ensures Keep(output + add[copied..p + 2]) == output + add[copied..p + 2]
  {
    hide Fold, Keep;
    var cur := output + add[copied..p];
    assert output + add[copied..p + 2] == cur + [CR] + [LF];
    KeepAppend(cur + [CR], LF);
    FoldNext(out, add, p + 1);
    if p + 2 < |add| { FoldNext(out, add, p + 2); } else { assert add[..p + 2] == add; }
  }

  lemma TrackErase(out: string, add: string, output: string, copied: nat, p: nat)
    requires copied <= p && p + 1 < |add| && add[p] == CR && add[p + 1] != LF && Tracks(out, add, output, copied, p)
    ensures Tracks(out, add, Keep(output + add[copied..p]), p + 1, p + 1)
  {
    hide Fold, Keep;
    var cur := output + add[copied..p];
    FoldNext(out, add, p + 1);
    KeepAppend(cur, CR);
    assert Keep(cur) + add[p + 1..p + 1] == Keep(cur);
  }

  lemma TrackLast(out: string, add: string, output: string, copied: nat, p: nat)
    requires copied <= p && p + 1 == |add| && Tracks(out, add, output, copied, p)
    ensures Fold(out, add) == output + add[copied..p + 1]
  {
    assert add[..p + 1] == add;
    assert output + add[copied..p + 1] == output + add[copied..p] + [add[p]];
  }

  lemma TrackEnd(out: string, add: string, output: string, copied: nat)
    requires copied <= |add| && Tracks(out, add, output, copied, |add|)
    ensures Fold(out, add) == output + add[copied..]
  {
  }

  /** A fragment that follows a pending return. */
  lemma StartPending(out: string, add: string)
    requires Pending(out) && add != ""
    ensures add[0] == LF ==>
              Tracks(out, add, out + [LF], 1, 1) && Keep(out + [LF] + add[1..1]) == out + [LF] + add[1..1]
    ensures add[0] != LF ==>
              Tracks(out, add, Keep(out), 0, 0) && Keep(Keep(out) + add[0..0]) == Keep(out) + add[0..0]
  {
    FoldNothing(out, add);
    FoldNext(out, add, 0);
    assert out + [LF] + add[1..1] == out + [LF];
    assert Keep(out) + add[0..0] == Keep(out);
    KeepIdempotent(out);
    if |add| > 1 { FoldNext(out, add, 1); } else { assert add[..1] == add; }
  }

  lemma StartTracks(out: string, add: string)
    requires !Pending(out) && add != ""
    ensures Tracks(out, add, out, 0, 0)
  {
    hide Fold;
    FoldNothing(out, add);
    FoldNext(out, add, 0);
    assert out + add[0..0] == out;
  }

  /** A fragment that follows complete text, scanned to its first break at `s`. */
  lemma StartPlain(out: string, add: string, s: nat)
    requires !Pending(out) && add != "" && s <= |add| && NoBreak(add[..s])
    ensures Tracks(out, add, out, 0, 0)
    ensures s == |add| ==> Fold(out, add) == out + add && NoBreak(add)
    ensures s < |add| && (add[s] == CR || add[s] == LF) ==> !NoBreak(add)
    ensures s + 1 == |add| && add[s] == CR ==> Fold(out, add) == out + add
  {
    hide Fold, Tracks, Keep;
    StartTracks(out, add);
    assert forall i :: 0 <= i < s ==> add[i] == add[..s][i];
    FoldPlain(out, add, s);
    if s == |add| {
      assert add[..s] == add;
    } else if s + 1 == |add| {
      FoldNext(out, add, s);
      assert add[..s + 1] == add;
      Snoc(out, add, s);
    }
  }

  lemma Snoc(out: string, add: string, s: nat)
    requires s + 1 == |add|
    ensures out + add == (out + add[..s]) + [add[s]]
  {
  }

  /** The break is a newline. */
  lemma StartNewline(out: string, add: string, s: nat)
    requires !Pending(out) && s < |add| && NoBreak(add[..s]) && add[s] == LF
    ensures Tracks(out, add, out, 0, s + 1) && Keep(out + add[0..s + 1]) == out + add[0..s + 1]
  {
    hide Fold, Keep;
    assert forall i :: 0 <= i < s ==> add[i] == add[..s][i];
    FoldPlain(out, add, s);
    FoldNext(out, add, s);
    assert out + add[0..s + 1] == (out + add[..s]) + [LF];
    KeepAppend(out + add[..s], LF);
    if s + 1 == |add| { assert add[..s + 1] == add; } else { FoldNext(out, add, s + 1); }
  }

  /** The break is a return not followed by a newline. */
  lemma StartErase(out: string, add: string, s: nat)
    requires !Pending(out) && s + 1 < |add| && NoBreak(add[..s]) && add[s] == CR && add[s + 1] != LF
    ensures Tracks(out, add, Keep(out), s + 1, s + 1)
    ensures Keep(Keep(out) + add[s + 1..s + 1]) == Keep(out) + add[s + 1..s + 1]
  {
    hide Fold, Keep;
    assert forall i :: 0 <= i < s ==> add[i] == add[..s][i];
    FoldPlain(out, add, s);
    FoldNext(out, add, s);
    FoldNext(out, add, s + 1);
    KeepAppend(out + add[..s], CR);
    KeepPlain(out, add[..s]);
    KeepIdempotent(out);
    assert Keep(out) + add[s + 1..s + 1] == Keep(out);
  }

  /** _RemoveCarriageReturn: the per-character fold, except for the one misread byte. */
  method RemoveCarriageReturn(out: string, add: string, next: char) returns (output: string)
    ensures output == if Misled(out, add, next) then Fold(out, add) + [CR] else Fold(out, add)
  {
    hide Fold, Keep, Tracks;
    output := out;
    if add == "" { FoldNothing(out, add); assert add[..0] == add; return; }
    FoldNothing(out, add);
    FoldNext(out, add, 0);
    var p, linend, copied := 0, 0, 0;
    ghost var s0 := -2;   // a return-newline pair seen ahead of p
    if Pending(out) {
      StartPending(out, add);
      if add[0] == LF {
        p := 1;
        output := output + [LF];
        copied, linend := p, p;
      } else {
        output := KeepLine(output);
        linend := p;
      }
    } else {
      var s := 0;
      while At(add, next, s) != CR && At(add, next, s) != LF && s < |add|
        invariant s <= |add| && NoBreak(add[..s])
        decreases |add| - s
      {
        assert add[..s + 1] == add[..s] + [add[s]];
        s := s + 1;
      }
      StartPlain(out, add, s);
      if At(add, next, s) == CR {
        if s + 1 < |add| {
          if add[s + 1] == LF {
            linend := s + 2;
            s0 := s;
          } else {
            StartErase(out, add, s);
            output := KeepLine(output);
            p, copied, linend := s + 1, s + 1, s + 1;
          }
        } else {
          output := output + add + (if s == |add| then [next] else []);
          assert add[..|add|] == add;
          return;
        }
      } else if s == |add| {
        output := output + add;
        assert add[..|add|] == add;
        return;
      } else {
        StartNewline(out, add, s);
        p, linend := s + 1, s + 1;
      }
    }
    output := FoldRest(out, add, output, p, linend, copied, s0);
  }

  /** The main loop, from a first position where output and pointers agree with the fold;
      `ahead` is a return-newline pair already seen beyond `p`, or -2. */
  method FoldRest(ghost out: string, add: string, output0: string, p0: nat, linend0: nat, copied0: nat,
                  ghost ahead: int)
    returns (output: string)
    requires copied0 <= p0 <= |add| && copied0 <= linend0 <= |add| && Tracks(out, add, output0, copied0, p0)
    requires linend0 <= p0 ==> Keep(output0 + add[copied0..p0]) == output0 + add[copied0..linend0]
    requires linend0 > p0 ==> p0 <= ahead && linend0 == ahead + 2 <= |add|
                              && add[ahead] == CR && add[ahead + 1] == LF && NoBreak(add[..ahead])
    ensures output == Fold(out, add)
  {
    hide Fold, Keep, Tracks;
    output := output0;
    var p: nat, linend: nat, copied: nat := p0, linend0, copied0;
    while p < |add|
      invariant copied <= p <= |add| && copied <= linend <= |add|
      invariant Tracks(out, add, output, copied, p)
      invariant linend <= p ==> Keep(output + add[copied..p]) == output + add[copied..linend]
      invariant linend > p ==> p <= ahead && linend == ahead + 2 <= |add|
                               && add[ahead] == CR && add[ahead + 1] == LF && NoBreak(add[..ahead])
    {
      if linend > p && p < ahead { assert add[..ahead][p] == add[p]; }
      if add[p] != CR {
        TrackPlain(out, add, output, copied, p);
        if add[p] == LF { linend := p + 1; }
      } else if p + 1 < |add| {
        if add[p + 1] == LF {
          TrackReturnNewline(out, add, output, copied, p);
          linend := p + 2;
          p := p + 1;
        } else {
          TrackErase(out, add, output, copied, p);
          KeepIdempotent(output + add[copied..p]);
          output := output + add[copied..linend];
          copied, linend := p + 1, p + 1;
          assert output + add[p + 1..p + 1] == output;
        }
      } else {
        TrackLast(out, add, output, copied, p);
        output := output + add[copied..p + 1];
        return;
      }
      p := p + 1;
    }
    TrackEnd(out, add, output, copied);
    output := output + add[copied..];
  }

  /** Truncating the output after its last newline. */
  method KeepLine(s: string) returns (r: string)
    ensures r == Keep(s)
  {
    var n := |s|;
    assert s[..n] == s;
    while n > 0 && s[n - 1] != LF
      invariant 0 <= n <= |s| && Keep(s[..n]) == Keep(s)
    {
      assert s[..n][..n - 1] == s[..n - 1];
      n := n - 1;
    }
    r := s[..n];
  }

  // ----- fragmentation

  function Joined(fragments: seq<string>): string {
    if fragments == [] then "" else Joined(fragments[..|fragments| - 1]) + fragments[|fragments| - 1]
  }

  /** The routine called on fragment after fragment, each followed by the byte `nexts[i]`. */
  method FoldFragments(out: string, fragments: seq<string>, nexts: seq<char>) returns (output: string)
    requires |nexts| == |fragments| && forall i :: 0 <= i < |nexts| ==> nexts[i] != CR
    ensures output == Fold(out, Joined(fragments))
  {
    hide Fold;
    output := out;
    var i := 0;
    FoldNothing(out, "");
    assert ""[..0] == "" && fragments[..0] == [];
    while i < |fragments|
      invariant i <= |fragments| && output == Fold(out, Joined(fragments[..i]))
    {
      assert fragments[..i + 1][..i] == fragments[..i];
      FoldConcat(out, Joined(fragments[..i]), fragments[i]);
      output := RemoveCarriageReturn(output, fragments[i], nexts[i]);
      i := i + 1;
    }
    assert fragments[..i] == fragments;
  }
}
