/** Include expansion of core/os/precompiler.cpp: _Compile and _MergeIncludedFile, which
    remember every file they have started in _Compiled. A file is its list of classified
    lines; an include line carries the resolved names it may stand for, in search order. */
module IncludeExpander {

  datatype Line =
    | Text(s: string)
    | Include(names: seq<string>)
    | PragmaOnce
    | BadPragma
    | BadInclude

  datatype Code = Code(content: string, finalized: bool, once: bool)

  /** A loop report, with the files being read at that moment, outermost first, and those
      given up before it. */
  datatype Loop = Loop(name: string, code: Code, stack: seq<string>, aborted: set<string>)

  /** `started`, `aborted` and `loops` are histories. */
  datatype State = State(compiled: map<string, Code>, errors: nat, warnings: nat,
                         started: seq<string>, aborted: set<string>, loops: seq<Loop>)

  datatype Merged = Missing(st: State) | Failed(st: State) | Merged(text: string, st: State)

  type Files = map<string, seq<Line>>

  predicate IsSpace(c: char) { c == ' ' || c == '\t' || c == '\r' || c == '\n' }

  function TrimLeft(s: string): string {
    if s == "" || !IsSpace(s[0]) then s else TrimLeft(s[1..])
  }

  function TrimRight(s: string): string {
    if s == "" || !IsSpace(s[|s| - 1]) then s else TrimRight(s[..|s| - 1])
  }

  function Trim(s: string): string { TrimRight(TrimLeft(s)) }

  predicate Blank(s: string) {
    forall i :: 0 <= i < |s| ==> s[i] == ' ' || s[i] == '\t' || s[i] == '\r' || s[i] == '\n'
  }

  /** `u` is `a` with nothing but blanks around it. */
  ghost predicate BlankAround(a: string, u: string) {
    exists i: nat {:trigger u[..i]} :: i + |a| <= |u| && u[i..i + |a|] == a && Blank(u[..i]) && Blank(u[i + |a|..])
  }

  lemma BlankConcat(s: string, t: string)
    requires Blank(s) && Blank(t)
    ensures Blank(s + t)
  {
  }

  lemma OneBlank(c: char)
    ensures Blank([c]) <==> IsSpace(c)
    ensures Blank("")
  {
    if Blank([c]) { assert [c][0] == c; }
  }

  lemma {:induction false} TrimLeftBlank(s: string)
    ensures |TrimLeft(s)| <= |s| && s[|s| - |TrimLeft(s)|..] == TrimLeft(s) && Blank(s[..|s| - |TrimLeft(s)|])
    ensures TrimLeft(s) != "" ==> !Blank(TrimLeft(s)[..1])
  {
    hide Blank, IsSpace;
    if s == "" {
      OneBlank(' ');
    } else {
      OneBlank(s[0]);
      if IsSpace(s[0]) {
        TrimLeftBlank(s[1..]);
        var k := |s| - |TrimLeft(s)|;
        assert s[1..][k - 1..] == s[k..];
        BlankConcat([s[0]], s[1..][..k - 1]);
        assert s[..k] == [s[0]] + s[1..][..k - 1];
      } else {
        assert s[..1] == [s[0]] && s[..0] == "";
      }
    }
  }

  lemma {:induction false} TrimRightBlank(s: string)
    ensures |TrimRight(s)| <= |s| && s[..|TrimRight(s)|] == TrimRight(s) && Blank(s[|TrimRight(s)|..])
    ensures TrimRight(s) != "" ==> !Blank(TrimRight(s)[|TrimRight(s)| - 1..])
  {
    hide Blank, IsSpace;
    if s == "" {
      OneBlank(' ');
    } else {
      var n := |s| - 1;
      OneBlank(s[n]);
      if IsSpace(s[n]) {
        TrimRightBlank(s[..n]);
        var k := |TrimRight(s)|;
        assert s[..n][..k] == s[..k];
        BlankConcat(s[..n][k..], [s[n]]);
        assert s[k..] == s[..n][k..] + [s[n]];
      } else {
        assert s[n..] == [s[n]] && s[|s|..] == "";
      }
    }
  }

  /** Trimming takes exactly the blanks off both ends. */
  lemma TrimBlank(s: string)
    ensures BlankAround(Trim(s), s)
    ensures Trim(s) != "" ==> !Blank(Trim(s)[..1]) && !Blank(Trim(s)[|Trim(s)| - 1..])
    ensures Blank(s) ==> Trim(s) == ""
  {
    hide TrimLeft, TrimRight, Blank, IsSpace, BlankAround;
    var t := TrimLeft(s);
    TrimLeftBlank(s);
    TrimRightBlank(t);
    var i, a := |s| - |t|, TrimRight(t);
    PartAround(s, i, |a|);
    if a != "" {
      assert a[..1] == t[..1] && s[i..i + 1] == t[..1];
      if Blank(s) { BlankPart(s, i, i + 1); }
    }
  }

  lemma PartAround(s: string, i: nat, n: nat)
    requires i + n <= |s| && Blank(s[..i]) && Blank(s[i..][n..])
    ensures BlankAround(s[i..][..n], s)
  {
    hide Blank;
    assert s[i..i + n] == s[i..][..n] && s[i + n..] == s[i..][n..];
  }

  lemma BlankPart(s: string, i: nat, j: nat)
    requires Blank(s) && i <= j <= |s|
    ensures Blank(s[i..j])
  {
  }

  function Top(stack: seq<string>): string
    requires stack != []
  {
    stack[|stack| - 1]
  }

  function Left(files: Files, st: State): set<string> { files.Keys - st.compiled.Keys }

  lemma FewerLeft(files: Files, a: State, b: State)
    requires a.compiled.Keys <= b.compiled.Keys
    ensures |Left(files, b)| <= |Left(files, a)|
    ensures forall n :: n in b.compiled && n in Left(files, a) ==> |Left(files, b)| < |Left(files, a)|
  {
    assert Left(files, a) == Left(files, b) + (Left(files, a) - Left(files, b));
    forall n | n in b.compiled && n in Left(files, a)
      ensures |Left(files, b)| < |Left(files, a)|
    {
      assert n in Left(files, a) - Left(files, b);
    }
  }

  lemma StartLeavesFewer(files: Files, st: State, name: string)
    requires name in files && name !in st.compiled
    ensures |Left(files, Start(st, name))| < |Left(files, st)|
  {
    FewerLeft(files, st, Start(st, name));
    assert name in Start(st, name).compiled && name in Left(files, st);
  }

  function Append(st: State, name: string, text: string): State
    requires name in st.compiled
  {
    st.(compiled := st.compiled[name := st.compiled[name].(content := st.compiled[name].content + text)])
  }

  function Abort(st: State, name: string): State { st.(aborted := st.aborted + {name}) }

  function Start(st: State, name: string): State {
    st.(compiled := st.compiled[name := Code("", false, false)], started := st.started + [name])
  }

  /** The lines of the file on top of the stack, from here to its end: the text returned to
      the includer. Dafny's termination check is the proof that expansion ends on every
      finite set of files, cyclic or not. */
  function Lines(files: Files, stack: seq<string>, lines: seq<Line>, st: State): (r: (string, State))
    requires stack != [] && Top(stack) in st.compiled
    ensures st.compiled.Keys <= r.1.compiled.Keys
    decreases |Left(files, st)|, 2, |lines|
  {
    var name := Top(stack);
    if lines == [] then
      var c := st.compiled[name];
      (c.content, st.(compiled := st.compiled[name := c.(finalized := true)]))
    else
      match lines[0]
      case Text(s) =>
        FewerLeft(files, st, Append(st, name, s + "\n"));
        Lines(files, stack, lines[1..], Append(st, name, s + "\n"))
      case PragmaOnce =>
        var st' := Append(st.(compiled := st.compiled[name := st.compiled[name].(once := true)]), name, "\n");
        FewerLeft(files, st, st');
        Lines(files, stack, lines[1..], st')
      case BadPragma =>
        FewerLeft(files, st, Append(st.(errors := st.errors + 1), name, "\n"));
        Lines(files, stack, lines[1..], Append(st.(errors := st.errors + 1), name, "\n"))
      case BadInclude => ("", Abort(st.(errors := st.errors + 1), name))
      case Include(names) =>
        match Search(files, stack, names, st)
        case Missing(st') => ("", Abort(st'.(errors := st'.errors + 1), name))
        case Failed(st') => ("", Abort(st', name))
        case Merged(text, st') =>
          FewerLeft(files, st, Append(st', name, text + "\n"));
          Lines(files, stack, lines[1..], Append(st', name, text + "\n"))
  }

  /** The candidates in order, until one is not missing. */
  function Search(files: Files, stack: seq<string>, names: seq<string>, st: State): (m: Merged)
    requires stack != [] && Top(stack) in st.compiled
    ensures st.compiled.Keys <= m.st.compiled.Keys
    decreases |Left(files, st)|, 1, |names|
  {
    if names == [] then Missing(st)
    else
      var m := Merge(files, stack, names[0], st);
      if m.Missing? then Search(files, stack, names[1..], m.st) else m
  }

  /** _MergeIncludedFile. */
  function Merge(files: Files, stack: seq<string>, name: string, st: State): (m: Merged)
    requires stack != [] && Top(stack) in st.compiled
    ensures st.compiled.Keys <= m.st.compiled.Keys
    ensures m.Missing? ==> m.st == st
    decreases |Left(files, st)|, 0, 0
  {
    if name in st.compiled then
      var c := st.compiled[name];
      if c.once then Merged("", st)
      else if c.finalized then Merged(c.content, st)
      else Failed(st.(errors := st.errors + 1, loops := st.loops + [Loop(name, c, stack, st.aborted)]))
    else if name in files then
      FewerLeft(files, st, Start(st, name));
      var r := Lines(files, stack + [name], files[name], Start(st, name));
      var text := Trim(r.0);
      Merged(text, if text == "" then r.1.(warnings := r.1.warnings + 1) else r.1)
    else Missing(st)
  }

  const Fresh := State(map[], 0, 0, [], {}, [])

  /** Compile of a root file. */
  function Compile(files: Files, root: string): (string, State)
    requires root in files
  {
    Lines(files, [root], files[root], Start(Fresh, root))
  }

  // ----- what every expansion keeps

  /** `from` has an include line that may stand for `to`. */
  predicate Includes(files: Files, from: string, to: string) {
    from in files && exists i :: 0 <= i < |files[from]| && files[from][i].Include? && to in files[from][i].names
  }

  /** Each file of the stack includes the next. */
  predicate Nested(files: Files, stack: seq<string>) {
    forall i :: 0 <= i < |stack| - 1 ==> Includes(files, stack[i], stack[i + 1])
  }

  predicate Distinct<T(==)>(s: seq<T>) { forall i, j :: 0 <= i < j < |s| ==> s[i] != s[j] }

  /** A loop report is about a file that is unfinished, has not read #pragma once, is
      included by the file being read, and is itself being read or was given up. */
  predicate LoopJustified(files: Files, l: Loop) {
    && l.stack != [] && Nested(files, l.stack) && Includes(files, Top(l.stack), l.name)
    && !l.code.finalized && !l.code.once
    && (l.name in l.stack || l.name in l.aborted)
  }

  /** Every include line is well formed and names at least one file that exists. */
  ghost predicate Resolvable(files: Files) {
    forall f, i {:trigger files[f][i]} :: f in files && 0 <= i < |files[f]| ==>
      && !files[f][i].BadInclude?
      && (files[f][i].Include? ==> Resolve(files, files[f][i].names) != [])
  }

  /** Files are given up only after a loop was reported, and so not before the first one. */
  predicate LoopsFirst(st: State) {
    (st.aborted != {} ==> st.loops != []) && (st.loops != [] ==> st.loops[0].aborted == {})
  }

  ghost predicate Inv(files: Files, stack: seq<string>, st: State) {
    && Nested(files, stack)
    && (forall i :: 0 <= i < |stack| ==> stack[i] in st.compiled)
    && Distinct(st.started) && (forall n :: n in st.started <==> n in st.compiled)
    && (forall n :: n in st.compiled && !st.compiled[n].finalized ==> n in stack || n in st.aborted)
    && (st.aborted != {} ==> st.errors > 0)
    && (forall i :: 0 <= i < |st.loops| ==> LoopJustified(files, st.loops[i]))
    && |st.loops| <= st.errors
    && (Resolvable(files) ==> LoopsFirst(st))
  }

  predicate IsSuffix(files: Files, name: string, lines: seq<Line>) {
    name in files && |lines| <= |files[name]| && lines == files[name][|files[name]| - |lines|..]
  }

  lemma SuffixTail(files: Files, name: string, lines: seq<Line>)
    requires IsSuffix(files, name, lines) && lines != []
    ensures IsSuffix(files, name, lines[1..])
    ensures lines[0].Include? ==> forall n :: n in lines[0].names ==> Includes(files, name, n)
    ensures Resolvable(files) ==> !lines[0].BadInclude?
    ensures Resolvable(files) && lines[0].Include? ==> Resolve(files, lines[0].names) != []
  {
    var k := |files[name]| - |lines|;
    assert files[name][k] == lines[0];
    assert lines[1..] == files[name][k + 1..];
  }

  /** Appending text or setting flags other than `finalized` on an open file. */
  lemma TouchKeepsInv(files: Files, stack: seq<string>, st: State, st': State, name: string, c: Code)
    requires Inv(files, stack, st) && name in st.compiled && c.finalized == st.compiled[name].finalized
    requires st' == st.(compiled := st.compiled[name := c], errors := st'.errors) && st'.errors >= st.errors
    ensures Inv(files, stack, st') && |Left(files, st')| <= |Left(files, st)|
  {
    FewerLeft(files, st, st');
  }

  lemma TopCompiled(files: Files, stack: seq<string>, st: State)
    requires stack != [] && Inv(files, stack, st)
    ensures Top(stack) in st.compiled
  {
  }

  lemma FinishKeepsInv(files: Files, stack: seq<string>, st: State)
    requires stack != [] && Inv(files, stack, st) && Top(stack) in st.compiled
    ensures Inv(files, stack[..|stack| - 1],
                st.(compiled := st.compiled[Top(stack) := st.compiled[Top(stack)].(finalized := true)]))
  {
    Popped(stack);
  }

  lemma AbortKeepsInv(files: Files, stack: seq<string>, st: State, errors: nat)
    requires stack != [] && Inv(files, stack, st) && errors >= st.errors && errors > 0
    requires Resolvable(files) ==> st.loops != []
    ensures Inv(files, stack[..|stack| - 1], Abort(st.(errors := errors), Top(stack)))
  {
    Popped(stack);
  }

  lemma LoopKeepsInv(files: Files, stack: seq<string>, st: State, name: string)
    requires stack != [] && Inv(files, stack, st) && Includes(files, Top(stack), name)
    requires name in st.compiled && !st.compiled[name].finalized && !st.compiled[name].once
    ensures Inv(files, stack, st.(errors := st.errors + 1,
                                  loops := st.loops + [Loop(name, st.compiled[name], stack, st.aborted)]))
  {
    var l := Loop(name, st.compiled[name], stack, st.aborted);
    assert LoopJustified(files, l);
  }

  lemma WarnKeepsInv(files: Files, stack: seq<string>, st: State)
    requires Inv(files, stack, st)
    ensures Inv(files, stack, st.(warnings := st.warnings + 1))
  {
  }

  lemma {:induction false} LinesKeepsInv(files: Files, stack: seq<string>, lines: seq<Line>, st: State)
    requires stack != [] && Inv(files, stack, st) && IsSuffix(files, Top(stack), lines)
    ensures Inv(files, stack[..|stack| - 1], Lines(files, stack, lines, st).1)
    decreases |Left(files, st)|, 2, |lines|
  {
    hide Inv, Lines, Search, Merge, IsSuffix, Left;
    TopCompiled(files, stack, st);
    var name := Top(stack);
    if lines == [] {
      LinesEnd(files, stack, st);
      FinishKeepsInv(files, stack, st);
    } else {
      SuffixTail(files, name, lines);
      PlainRound(files, stack, lines, 0, st);
      assert lines[0..] == lines;
      var c := st.compiled[name];
      match lines[0]
      case Text(s) =>
        var st' := Append(st, name, s + "\n");
        TouchKeepsInv(files, stack, st, st', name, c.(content := c.content + (s + "\n")));
        LinesKeepsInv(files, stack, lines[1..], st');
      case PragmaOnce =>
        var st' := Append(st.(compiled := st.compiled[name := c.(once := true)]), name, "\n");
        TouchKeepsInv(files, stack, st, st', name, c.(once := true, content := c.content + "\n"));
        LinesKeepsInv(files, stack, lines[1..], st');
      case BadPragma =>
        var st' := Append(st.(errors := st.errors + 1), name, "\n");
        TouchKeepsInv(files, stack, st, st', name, c.(content := c.content + "\n"));
        LinesKeepsInv(files, stack, lines[1..], st');
      case BadInclude =>
        AbortKeepsInv(files, stack, st, st.errors + 1);
      case Include(names) =>
        SearchKeepsInv(files, stack, names, st);
        IncludeKeepsInv(files, stack, lines, st);
    }
  }

  /** What follows a search: give the file up, or append and read on. */
  lemma {:induction false} IncludeKeepsInv(files: Files, stack: seq<string>, lines: seq<Line>, st: State)
    requires stack != [] && Inv(files, stack, st) && IsSuffix(files, Top(stack), lines)
    requires lines != [] && lines[0].Include?
    requires Inv(files, stack, Search(files, stack, lines[0].names, st).st)
    requires var m := Search(files, stack, lines[0].names, st); m.Failed? ==> m.st.errors > 0 && m.st.loops != []
    ensures Inv(files, stack[..|stack| - 1], Lines(files, stack, lines, st).1)
    decreases |Left(files, st)|, 2, |lines|, 0
  {
    hide Inv, Search, Merge, IsSuffix;
    TopCompiled(files, stack, st);
    SuffixTail(files, Top(stack), lines);
    SearchFinds(files, stack, lines[0].names, st);
    match Search(files, stack, lines[0].names, st)
    case Missing(st') => AbortKeepsInv(files, stack, st', st'.errors + 1);
    case Failed(st') => AbortKeepsInv(files, stack, st', st'.errors);
    case Merged(text, st') =>
      var c := st'.compiled[Top(stack)];
      var st'' := Append(st', Top(stack), text + "\n");
      TouchKeepsInv(files, stack, st', st'', Top(stack), c.(content := c.content + (text + "\n")));
      FewerLeft(files, st, st'');
      LinesKeepsInv(files, stack, lines[1..], st'');
  }

  /** A search over names one of which exists finds something, or fails. */
  lemma {:induction false} SearchFinds(files: Files, stack: seq<string>, names: seq<string>, st: State)
    requires stack != [] && Top(stack) in st.compiled
    ensures Resolve(files, names) != [] ==> !Search(files, stack, names, st).Missing?
    decreases |names|
  {
    hide Lines;
    if names != [] && Merge(files, stack, names[0], st).Missing? {
      SearchFinds(files, stack, names[1..], st);
    }
  }

  lemma Popped(stack: seq<string>)
    requires stack != []
    ensures forall n :: n in stack ==> n in stack[..|stack| - 1] || n == Top(stack)
  {
    forall n | n in stack
      ensures n in stack[..|stack| - 1] || n == Top(stack)
    {
      var i :| 0 <= i < |stack| && stack[i] == n;
      if i < |stack| - 1 { assert stack[..|stack| - 1][i] == n; }
    }
  }

  lemma {:induction false} SearchKeepsInv(files: Files, stack: seq<string>, names: seq<string>, st: State)
    requires stack != [] && Inv(files, stack, st)
    requires forall n :: n in names ==> Includes(files, Top(stack), n)
    ensures Inv(files, stack, Search(files, stack, names, st).st)
    ensures var m := Search(files, stack, names, st); m.Failed? ==> m.st.errors > 0 && m.st.loops != []
    decreases |Left(files, st)|, 1, |names|
  {
    hide Inv, Merge;
    TopCompiled(files, stack, st);
    if names != [] {
      MergeKeepsInv(files, stack, names[0], st);
      if Merge(files, stack, names[0], st).Missing? { SearchKeepsInv(files, stack, names[1..], st); }
    }
  }

  lemma {:induction false} MergeKeepsInv(files: Files, stack: seq<string>, name: string, st: State)
    requires stack != [] && Inv(files, stack, st) && Includes(files, Top(stack), name)
    ensures Inv(files, stack, Merge(files, stack, name, st).st)
    ensures var m := Merge(files, stack, name, st); m.Failed? ==> m.st.errors > 0 && m.st.loops != []
    decreases |Left(files, st)|, 0, 0
  {
    hide Inv, Lines, Trim, Includes, Left;
    TopCompiled(files, stack, st);
    if name in st.compiled {
      if !st.compiled[name].once && !st.compiled[name].finalized { LoopKeepsInv(files, stack, st, name); }
    } else if name in files {
      StartLeavesFewer(files, st, name);
      CompileKeepsInv(files, stack, name, st);
      WarnKeepsInv(files, stack, Lines(files, stack + [name], files[name], Start(st, name)).1);
    }
  }

  lemma {:induction false} CompileKeepsInv(files: Files, stack: seq<string>, name: string, st: State)
    requires Inv(files, stack, st) && name !in st.compiled && name in files
    requires stack != [] ==> Includes(files, Top(stack), name)
    ensures Inv(files, stack, Lines(files, stack + [name], files[name], Start(st, name)).1)
    decreases |Left(files, Start(st, name))|, 3
  {
    hide Inv, Lines, Includes;
    StartKeepsInv(files, stack, st, name);
    var inner := stack + [name];
    LinesKeepsInv(files, inner, files[name], Start(st, name));
    assert inner[..|inner| - 1] == stack;
  }

  lemma StartKeepsInv(files: Files, stack: seq<string>, st: State, name: string)
    requires Inv(files, stack, st) && name !in st.compiled
    requires stack != [] ==> Includes(files, Top(stack), name)
    ensures Inv(files, stack + [name], Start(st, name))
  {
  }

  /** Every expansion compiles each name at most once, reports a loop only about an
      unfinished file, and leaves a file unfinished only by giving it up. */
  lemma ExpansionSafe(files: Files, root: string)
    requires root in files
    ensures var st := Compile(files, root).1;
            && Distinct(st.started) && (forall n :: n in st.started <==> n in st.compiled)
            && (forall i :: 0 <= i < |st.loops| ==> LoopJustified(files, st.loops[i]))
            && (forall n :: n in st.compiled && !st.compiled[n].finalized ==> n in st.aborted)
            && (st.errors == 0 ==> st.loops == [] && forall n :: n in st.compiled ==> st.compiled[n].finalized)
  {
    hide Lines;
    CompileInv(files, root);
  }

  lemma CompileInv(files: Files, root: string)
    requires root in files
    ensures Inv(files, [], Compile(files, root).1)
  {
    hide Lines;
    assert Inv(files, [], Fresh);
    StartKeepsInv(files, [], Fresh, root);
    assert [] + [root] == [root];
    LinesKeepsInv(files, [root], files[root], Start(Fresh, root));
    assert [root][..0] == [];
  }

  /** A loop reported about a file being read is a real cycle: a chain of files, each
      including the next, from the reported file back to itself. Any other report is about a
      file that was given up before. */
  lemma LoopIsCycle(files: Files, l: Loop) returns (cycle: seq<string>)
    requires LoopJustified(files, l)
    ensures l.name in l.stack ==>
              |cycle| >= 2 && cycle[0] == l.name == cycle[|cycle| - 1] && Nested(files, cycle)
    ensures l.name !in l.stack ==> l.name in l.aborted
  {
    cycle := [];
    if l.name in l.stack {
      var i :| 0 <= i < |l.stack| && l.stack[i] == l.name;
      cycle := l.stack[i..] + [l.name];
      forall k | 0 <= k < |cycle| - 1
        ensures Includes(files, cycle[k], cycle[k + 1])
      {
        if k < |cycle| - 2 { assert cycle[k] == l.stack[i + k] && cycle[k + 1] == l.stack[i + k + 1]; }
      }
    }
  }

  /** When every include line names a file that exists, a reported loop means that the files
      include one another in a cycle. */
  lemma LoopsMeanCycle(files: Files, root: string) returns (cycle: seq<string>)
    requires root in files && Resolvable(files) && Compile(files, root).1.loops != []
    ensures |cycle| >= 2 && cycle[0] == cycle[|cycle| - 1] && Nested(files, cycle)
  {
    hide Lines;
    CompileInv(files, root);
    var l := Compile(files, root).1.loops[0];
    assert l.aborted == {} && LoopJustified(files, l);
    cycle := LoopIsCycle(files, l);
  }

  /** "r" includes "a" twice, and "a" a file that does not exist. */
  const Unlucky: Files := map["r" := [Include(["a"]), Include(["a"])], "a" := [Include(["x"])]]

  function Height(name: string): nat { if name == "r" then 2 else if name == "a" then 1 else 0 }

  /** No cycle, and yet a loop is reported: "a", given up for its missing header, counts as
      unfinished when it is included again. */
  lemma FalseLoop()
    ensures forall f, g :: Includes(Unlucky, f, g) ==> Height(f) > Height(g)
    ensures var st := Compile(Unlucky, "r").1; |st.loops| == 1 && st.loops[0].name == "a" && st.loops[0].stack == ["r"]
  {
    var s0 := Start(Fresh, "r");
    var s1 := Start(s0, "a");
    GivenUp(s1);
    var s2 := Abort(s1.(errors := 1), "a").(warnings := 1);
    assert ["r"] + ["a"] == ["r", "a"] && Trim("") == "";
    assert Merge(Unlucky, ["r"], "a", s0) == Merged("", s2);
    IncludeRound(Unlucky, ["r"], Unlucky["r"], 0, s0);
    assert Unlucky["r"][0..] == Unlucky["r"];
    assert Search(Unlucky, ["r"], ["a"], s0) == Merged("", s2);
    var s3 := Append(s2, "r", "" + "\n");
    IncludeRound(Unlucky, ["r"], Unlucky["r"], 1, s3);
    var m := Merge(Unlucky, ["r"], "a", s3);
    assert m.Failed? && m.st.loops == [Loop("a", s3.compiled["a"], ["r"], s3.aborted)];
    assert Search(Unlucky, ["r"], ["a"], s3) == m;
  }

  lemma GivenUp(st: State)
    requires "a" in st.compiled && "x" !in st.compiled
    ensures Lines(Unlucky, ["r", "a"], Unlucky["a"], st) == ("", Abort(st.(errors := st.errors + 1), "a"))
  {
    hide Lines, Search, Merge;
    NoneFound(Unlucky, ["r", "a"], "x", st);
    IncludeRound(Unlucky, ["r", "a"], Unlucky["a"], 0, st);
    assert Unlucky["a"][0..] == Unlucky["a"];
  }

  lemma NoneFound(files: Files, stack: seq<string>, name: string, st: State)
    requires stack != [] && Top(stack) in st.compiled && name !in files && name !in st.compiled
    ensures Search(files, stack, [name], st) == Missing(st)
  {
    hide Lines, Merge;
    MergeMissing(files, stack, name, st);
    var rest := [name][1..];
    assert rest == [] && Search(files, stack, rest, st) == Missing(st);
  }

  // ----- acyclic files: recursive inlining

  /** The first candidate that exists. */
  function Resolve(files: Files, names: seq<string>): (r: seq<string>)
    ensures |r| <= 1 && (r != [] ==> r[0] in files && r[0] in names)
  {
    if names == [] then [] else if names[0] in files then [names[0]] else Resolve(files, names[1..])
  }

  /** `rank` shows the include graph acyclic; every line is text or a resolvable include. */
  ghost predicate Ranked(files: Files, rank: map<string, nat>) {
    && files.Keys <= rank.Keys
    && forall f, i {:trigger files[f][i]} :: f in files && 0 <= i < |files[f]| ==>
         && (files[f][i].Text? || files[f][i].Include?)
         && (files[f][i].Include? ==>
               var g := Resolve(files, files[f][i].names); g != [] && rank[g[0]] < rank[f])
  }

  /** `s` is the recursive inlining of `lines`, where the text put in place of an include
      may have lost white space at its ends. */
  ghost predicate Inlines(files: Files, rank: map<string, nat>, bound: nat, lines: seq<Line>, s: string)
    decreases bound, |lines|
  {
    if lines == [] then s == ""
    else
      var n := |lines| - 1;
      exists s0, a :: s == s0 + a + "\n" && Inlines(files, rank, bound, lines[..n], s0)
                      && InlinesLine(files, rank, bound, lines, a)
  }

  ghost predicate InlinesLine(files: Files, rank: map<string, nat>, bound: nat, lines: seq<Line>, a: string)
    requires lines != []
    decreases bound, |lines|, 0
  {
    match lines[|lines| - 1]
    case Text(t) => a == t
    case Include(names) =>
      var g := Resolve(files, names);
      && g != [] && g[0] in rank && rank[g[0]] < bound
      && exists u :: Inlines(files, rank, rank[g[0]], files[g[0]], u) && BlankAround(a, u)
    case _ => false
  }

  /** All finished files hold an inlining of themselves; unfinished ones outrank `bound`. */
  ghost predicate Settled(files: Files, rank: map<string, nat>, bound: nat, st: State) {
    && st.errors == 0
    && forall n :: n in st.compiled ==>
         && n in files && n in rank && !st.compiled[n].once
         && (if st.compiled[n].finalized then Inlines(files, rank, rank[n], files[n], st.compiled[n].content)
             else rank[n] >= bound)
  }

  /** Files known before are left alone, except the one on top of the stack. */
  predicate Frame(st: State, st': State, but: string) {
    forall n :: n in st.compiled && n != but ==> n in st'.compiled && st'.compiled[n] == st.compiled[n]
  }

  ghost predicate Unfinished(st: State, n: string) { n in st.compiled && !st.compiled[n].finalized }

  /** Ready to read the rest of `name`: what is behind is inlined in its content, and all
      other unfinished files outrank it by reaching `outer`. */
  ghost predicate Reading(files: Files, rank: map<string, nat>, outer: nat, name: string, lines: seq<Line>, st: State) {
    && IsSuffix(files, name, lines) && name in rank && rank[name] < outer
    && Settled(files, rank, rank[name], st) && Unfinished(st, name)
    && (forall n :: Unfinished(st, n) && n != name ==> rank[n] >= outer)
    && Inlines(files, rank, rank[name], files[name][..|files[name]| - |lines|], st.compiled[name].content)
  }

  lemma InlinesSnoc(files: Files, rank: map<string, nat>, bound: nat, lines: seq<Line>, k: nat, s: string, a: string)
    requires k < |lines| && Inlines(files, rank, bound, lines[..k], s)
    requires InlinesLine(files, rank, bound, lines[..k + 1], a)
    ensures Inlines(files, rank, bound, lines[..k + 1], s + (a + "\n"))
  {
    var ls := lines[..k + 1];
    assert ls[..k] == lines[..k];
    assert s + (a + "\n") == s + a + "\n";
  }

  /** Reading on after one line whose text is `a`. */
  lemma ReadOn(files: Files, rank: map<string, nat>, outer: nat, name: string, lines: seq<Line>, st: State, a: string)
    requires Reading(files, rank, outer, name, lines, st) && lines != []
    requires InlinesLine(files, rank, rank[name], files[name][..|files[name]| - |lines| + 1], a)
    ensures Reading(files, rank, outer, name, lines[1..], Append(st, name, a + "\n"))
  {
    hide Inlines, InlinesLine, Settled;
    SuffixTail(files, name, lines);
    InlinesSnoc(files, rank, rank[name], files[name], |files[name]| - |lines|, st.compiled[name].content, a);
    AppendSettled(files, rank, rank[name], name, st, a + "\n");
  }

  lemma AppendSettled(files: Files, rank: map<string, nat>, bound: nat, name: string, st: State, text: string)
    requires Settled(files, rank, bound, st) && Unfinished(st, name)
    ensures Settled(files, rank, bound, Append(st, name, text))
  {
    hide Inlines;
  }

  lemma LineKind(files: Files, rank: map<string, nat>, name: string, lines: seq<Line>)
    requires Ranked(files, rank) && IsSuffix(files, name, lines) && lines != []
    ensures lines[0].Text? || lines[0].Include?
    ensures lines[0].Include? ==>
              var g := Resolve(files, lines[0].names); g != [] && g[0] in rank && rank[g[0]] < rank[name]
    ensures files[name][..|files[name]| - |lines| + 1][|files[name]| - |lines|] == lines[0]
  {
    assert files[name][|files[name]| - |lines|] == lines[0];
  }

  lemma {:induction false} LinesInlines(files: Files, rank: map<string, nat>, outer: nat, stack: seq<string>,
                                        lines: seq<Line>, st: State)
    requires stack != [] && Ranked(files, rank) && Reading(files, rank, outer, Top(stack), lines, st)
    ensures var r, name := Lines(files, stack, lines, st), Top(stack);
            && Settled(files, rank, outer, r.1) && Frame(st, r.1, name)
            && (forall n :: Unfinished(r.1, n) ==> Unfinished(st, n) && n != name)
            && name in r.1.compiled && r.1.compiled[name].finalized
            && Inlines(files, rank, rank[name], files[name], r.0)
    decreases |Left(files, st)|, 2, |lines|
  {
    hide Inlines, InlinesLine, Ranked, Search, Settled;
    var name := Top(stack);
    if lines == [] {
      FinishSettles(files, rank, outer, name, st);
      assert files[name][..|files[name]|] == files[name];
    } else {
      LineKind(files, rank, name, lines);
      match lines[0]
      case Text(t) =>
        var st' := Append(st, name, t + "\n");
        TextLine(files, rank, rank[name], files[name], |files[name]| - |lines|, t);
        ReadOn(files, rank, outer, name, lines, st, t);
        FewerLeft(files, st, st');
        LinesInlines(files, rank, outer, stack, lines[1..], st');
      case Include(names) =>
        IncludeInlines(files, rank, outer, stack, lines, st);
    }
  }

  lemma FinishSettles(files: Files, rank: map<string, nat>, outer: nat, name: string, st: State)
    requires Reading(files, rank, outer, name, [], st)
    ensures Settled(files, rank, outer, st.(compiled := st.compiled[name := st.compiled[name].(finalized := true)]))
  {
    hide Inlines;
    assert files[name][..|files[name]|] == files[name];
  }

  lemma TextLine(files: Files, rank: map<string, nat>, bound: nat, lines: seq<Line>, k: nat, t: string)
    requires k < |lines| && lines[k] == Text(t)
    ensures InlinesLine(files, rank, bound, lines[..k + 1], t)
  {
  }

  lemma {:induction false} IncludeInlines(files: Files, rank: map<string, nat>, outer: nat, stack: seq<string>,
                                          lines: seq<Line>, st: State)
    requires stack != [] && Ranked(files, rank) && Reading(files, rank, outer, Top(stack), lines, st)
    requires lines != [] && lines[0].Include?
    ensures var r, name := Lines(files, stack, lines, st), Top(stack);
            && Settled(files, rank, outer, r.1) && Frame(st, r.1, name)
            && (forall n :: Unfinished(r.1, n) ==> Unfinished(st, n) && n != name)
            && name in r.1.compiled && r.1.compiled[name].finalized
            && Inlines(files, rank, rank[name], files[name], r.0)
    decreases |Left(files, st)|, 2, |lines|, 0
  {
    hide Inlines, InlinesLine, Inlined, Ranked, Search, Settled, IsSuffix;
    var name := Top(stack);
    LineKind(files, rank, name, lines);
    SearchInlines(files, rank, stack, lines[0].names, st);
    var m := Search(files, stack, lines[0].names, st);
    IncludeLine(files, rank, name, lines, m.text);
    ReadingAfter(files, rank, outer, name, lines, st, m.st);
    ReadOn(files, rank, outer, name, lines, m.st, m.text);
    var st' := Append(m.st, name, m.text + "\n");
    FewerLeft(files, st, st');
    LinesInlines(files, rank, outer, stack, lines[1..], st');
  }

  lemma IncludeLine(files: Files, rank: map<string, nat>, name: string, lines: seq<Line>, a: string)
    requires Ranked(files, rank) && IsSuffix(files, name, lines) && lines != [] && lines[0].Include?
    requires var g := Resolve(files, lines[0].names);
             g != [] && g[0] in rank && rank[g[0]] < rank[name] && Inlined(files, rank, g[0], a)
    ensures InlinesLine(files, rank, rank[name], files[name][..|files[name]| - |lines| + 1], a)
  {
    hide Inlines, Trim;
    LineKind(files, rank, name, lines);
  }

  /** Including another file does not disturb the reading of this one. */
  lemma ReadingAfter(files: Files, rank: map<string, nat>, outer: nat, name: string, lines: seq<Line>,
                     st: State, st': State)
    requires Reading(files, rank, outer, name, lines, st) && Settled(files, rank, rank[name], st')
    requires forall n :: n in st.compiled ==> n in st'.compiled && st'.compiled[n] == st.compiled[n]
    requires forall n :: Unfinished(st', n) ==> Unfinished(st, n)
    ensures Reading(files, rank, outer, name, lines, st')
  {
    hide Inlines;
    assert st'.compiled[name] == st.compiled[name];
  }

  /** `a` is the text, possibly trimmed, of an inlining of `g`. */
  ghost predicate Inlined(files: Files, rank: map<string, nat>, g: string, a: string)
    requires g in files && g in rank
  {
    exists u :: Inlines(files, rank, rank[g], files[g], u) && BlankAround(a, u)
  }

  /** Included text was merged and nothing else changed. */
  ghost predicate Good(files: Files, rank: map<string, nat>, bound: nat, st: State, m: Merged) {
    && m.Merged? && Settled(files, rank, bound, m.st) && st.compiled.Keys <= m.st.compiled.Keys
    && (forall n :: n in st.compiled ==> m.st.compiled[n] == st.compiled[n])
    && (forall n :: Unfinished(m.st, n) ==> Unfinished(st, n))
  }

  lemma {:induction false} SearchInlines(files: Files, rank: map<string, nat>, stack: seq<string>,
                                         names: seq<string>, st: State)
    requires stack != [] && Ranked(files, rank) && Top(stack) in rank && Top(stack) in st.compiled
    requires Settled(files, rank, rank[Top(stack)], st)
    requires var g := Resolve(files, names); g != [] && g[0] in rank && rank[g[0]] < rank[Top(stack)]
    ensures var m := Search(files, stack, names, st);
            Good(files, rank, rank[Top(stack)], st, m) && Inlined(files, rank, Resolve(files, names)[0], m.text)
    decreases |Left(files, st)|, 1, |names|
  {
    hide Inlines, Ranked, Merge, Good, Inlined;
    if names[0] in files {
      MergeInlines(files, rank, stack, names[0], st);
      GoodIsMerged(files, rank, rank[Top(stack)], st, Merge(files, stack, names[0], st));
    } else {
      MergeMissing(files, stack, names[0], st);
      SearchInlines(files, rank, stack, names[1..], st);
    }
  }

  lemma GoodIsMerged(files: Files, rank: map<string, nat>, bound: nat, st: State, m: Merged)
    requires Good(files, rank, bound, st, m)
    ensures m.Merged?
  {
  }

  lemma MergeMissing(files: Files, stack: seq<string>, name: string, st: State)
    requires stack != [] && Top(stack) in st.compiled && name !in files && name !in st.compiled
    ensures Merge(files, stack, name, st) == Missing(st)
  {
  }

  lemma {:induction false} MergeInlines(files: Files, rank: map<string, nat>, stack: seq<string>, g: string, st: State)
    requires stack != [] && Ranked(files, rank) && Top(stack) in rank && Top(stack) in st.compiled
    requires Settled(files, rank, rank[Top(stack)], st)
    requires g in files && g in rank && rank[g] < rank[Top(stack)]
    ensures var m := Merge(files, stack, g, st);
            Good(files, rank, rank[Top(stack)], st, m) && m.Merged? && Inlined(files, rank, g, m.text)
    decreases |Left(files, st)|, 0, 1
  {
    hide Inlines, Ranked, Settled, Good, Inlined, Lines, Trim, Left;
    if g in st.compiled {
      MergeKnown(files, rank, stack, g, st);
    } else {
      MergeNew(files, rank, stack, g, st);
    }
  }

  lemma MergeKnown(files: Files, rank: map<string, nat>, stack: seq<string>, g: string, st: State)
    requires stack != [] && Top(stack) in rank && Top(stack) in st.compiled
    requires Settled(files, rank, rank[Top(stack)], st)
    requires g in files && g in rank && rank[g] < rank[Top(stack)] && g in st.compiled
    ensures var m := Merge(files, stack, g, st);
            Good(files, rank, rank[Top(stack)], st, m) && m.Merged? && Inlined(files, rank, g, m.text)
  {
    hide Inlines, Lines, Trim;
    assert st.compiled[g].finalized && !st.compiled[g].once;
    InlinedBoth(files, rank, g, st.compiled[g].content);
  }

  lemma InlinedBoth(files: Files, rank: map<string, nat>, g: string, u: string)
    requires g in files && g in rank && Inlines(files, rank, rank[g], files[g], u)
    ensures Inlined(files, rank, g, u) && Inlined(files, rank, g, Trim(u))
  {
    hide Inlines, Trim, BlankAround;
    TrimBlank(u);
    BlankAroundSelf(u);
  }

  lemma BlankAroundSelf(u: string)
    ensures BlankAround(u, u)
  {
    assert u[..0] == "" && u[0..0 + |u|] == u && u[0 + |u|..] == "";
  }

  lemma {:induction false} MergeNew(files: Files, rank: map<string, nat>, stack: seq<string>, g: string, st: State)
    requires stack != [] && Ranked(files, rank) && Top(stack) in rank && Top(stack) in st.compiled
    requires Settled(files, rank, rank[Top(stack)], st)
    requires g in files && g in rank && rank[g] < rank[Top(stack)] && g !in st.compiled
    ensures var m := Merge(files, stack, g, st);
            Good(files, rank, rank[Top(stack)], st, m) && m.Merged? && Inlined(files, rank, g, m.text)
    decreases |Left(files, st)|, 0, 0
  {
    hide Inlines, Ranked, Settled, Good, Inlined, Lines, Trim, Reading, Frame, Unfinished;
    var bound, inner, st1 := rank[Top(stack)], stack + [g], Start(st, g);
    StartLeavesFewer(files, st, g);
    StartReading(files, rank, bound, g, st);
    LinesInlines(files, rank, bound, inner, files[g], st1);
    var r := Lines(files, inner, files[g], st1);
    InlinedBoth(files, rank, g, r.0);
    MergedIsGood(files, rank, bound, g, st, r.1, Merge(files, stack, g, st));
  }

  lemma MergedIsGood(files: Files, rank: map<string, nat>, bound: nat, g: string, st: State, st': State, m: Merged)
    requires g !in st.compiled && Settled(files, rank, bound, st') && Frame(Start(st, g), st', g)
    requires forall n :: Unfinished(st', n) ==> Unfinished(Start(st, g), n) && n != g
    requires Start(st, g).compiled.Keys <= st'.compiled.Keys
    requires m.Merged? && m.st == st'.(warnings := m.st.warnings)
    ensures Good(files, rank, bound, st, m)
  {
    hide Inlines;
    forall n | n in st.compiled
      ensures n in st'.compiled && st'.compiled[n] == st.compiled[n]
    {
      assert n in Start(st, g).compiled;
    }
    forall n | Unfinished(m.st, n)
      ensures Unfinished(st, n)
    {
      assert Unfinished(st', n);
    }
  }

  lemma StartReading(files: Files, rank: map<string, nat>, bound: nat, g: string, st: State)
    requires g in files && g in rank && rank[g] < bound && g !in st.compiled && Settled(files, rank, bound, st)
    ensures Reading(files, rank, bound, g, files[g], Start(st, g))
  {
    assert files[g][..0] == [];
    assert Inlines(files, rank, rank[g], [], "");
    hide Inlines;
  }

  /** On an acyclic set of files without #pragma once, expansion reports nothing and gives
      the recursive inlining of the root, up to white space at the ends of inlined text. */
  lemma AcyclicExpansionInlines(files: Files, rank: map<string, nat>, root: string)
    requires Ranked(files, rank) && root in files
    ensures root in rank
    ensures var r := Compile(files, root);
            && Inlines(files, rank, rank[root], files[root], r.0)
            && r.1.errors == 0 && r.1.loops == [] && forall n :: n in r.1.compiled ==> r.1.compiled[n].finalized
  {
    var bound := rank[root] + 1;
    assert Settled(files, rank, bound, Fresh);
    StartReading(files, rank, bound, root, Fresh);
    LinesInlines(files, rank, bound, [root], files[root], Start(Fresh, root));
    ExpansionSafe(files, root);
  }

  // ----- #pragma once

  /** Files that have read #pragma once stay so. */
  predicate OnceKept(st: State, st': State) {
    forall n :: n in st.compiled && st.compiled[n].once ==> n in st'.compiled && st'.compiled[n].once
  }

  lemma {:induction false} LinesKeepOnce(files: Files, stack: seq<string>, lines: seq<Line>, st: State)
    requires stack != [] && Top(stack) in st.compiled
    ensures OnceKept(st, Lines(files, stack, lines, st).1)
    decreases |Left(files, st)|, 2, |lines|
  {
    hide Lines, Search, Merge, OnceKept, Append;
    var name := Top(stack);
    PlainKeepsOnce(st, name, "\n");
    if lines == [] {
      LinesEnd(files, stack, st);
    } else {
      PlainRound(files, stack, lines, 0, st);
      assert lines[0..] == lines;
      match lines[0] {
        case Text(s) =>
          AppendKeepsOnce(st, st, name, s + "\n");
          ReadOnKeepsOnce(files, stack, lines, st, Append(st, name, s + "\n"));
        case PragmaOnce =>
          var c := st.compiled[name].(once := true);
          ReadOnKeepsOnce(files, stack, lines, st, Append(st.(compiled := st.compiled[name := c]), name, "\n"));
        case BadPragma => ReadOnKeepsOnce(files, stack, lines, st, Append(st.(errors := st.errors + 1), name, "\n"));
        case BadInclude =>
        case Include(names) =>
          IncludeRound(files, stack, lines, 0, st);
          SearchKeepsOnce(files, stack, names, st);
          var m := Search(files, stack, names, st);
          FailKeepsOnce(st, m.st, name);
          if m.Merged? {
            AppendKeepsOnce(st, m.st, name, m.text + "\n");
            ReadOnKeepsOnce(files, stack, lines, st, Append(m.st, name, m.text + "\n"));
          }
      }
    }
  }

  lemma AppendKeepsOnce(st: State, st': State, name: string, text: string)
    requires name in st'.compiled && OnceKept(st, st')
    ensures OnceKept(st, Append(st', name, text)) && Append(st', name, text).compiled.Keys == st'.compiled.Keys
  {
  }

  lemma FailKeepsOnce(st: State, st': State, name: string)
    requires OnceKept(st, st')
    ensures OnceKept(st, Abort(st', name)) && OnceKept(st, Abort(st'.(errors := st'.errors + 1), name))
  {
  }

  lemma PlainKeepsOnce(st: State, name: string, text: string)
    requires name in st.compiled
    ensures OnceKept(st, st)
    ensures var c := st.compiled[name];
            && OnceKept(st, st.(compiled := st.compiled[name := c.(finalized := true)]))
            && OnceKept(st, Abort(st.(errors := st.errors + 1), name))
    ensures var c := st.compiled[name].(once := true);
            var st' := Append(st.(compiled := st.compiled[name := c]), name, text);
            OnceKept(st, st') && st'.compiled.Keys == st.compiled.Keys
    ensures var st' := Append(st.(errors := st.errors + 1), name, text);
            OnceKept(st, st') && st'.compiled.Keys == st.compiled.Keys
  {
  }

  lemma {:induction false} ReadOnKeepsOnce(files: Files, stack: seq<string>, lines: seq<Line>, st: State, st': State)
    requires stack != [] && Top(stack) in st.compiled && Top(stack) in st'.compiled && lines != []
    requires OnceKept(st, st') && st.compiled.Keys <= st'.compiled.Keys
    ensures OnceKept(st, Lines(files, stack, lines[1..], st').1)
    decreases |Left(files, st)|, 2, |lines|, 0
  {
    hide Lines;
    FewerLeft(files, st, st');
    LinesKeepOnce(files, stack, lines[1..], st');
  }

  lemma {:induction false} SearchKeepsOnce(files: Files, stack: seq<string>, names: seq<string>, st: State)
    requires stack != [] && Top(stack) in st.compiled
    ensures OnceKept(st, Search(files, stack, names, st).st)
    decreases |Left(files, st)|, 1, |names|
  {
    hide Merge;
    if names != [] {
      MergeKeepsOnce(files, stack, names[0], st);
      if Merge(files, stack, names[0], st).Missing? { SearchKeepsOnce(files, stack, names[1..], st); }
    }
  }

  lemma {:induction false} MergeKeepsOnce(files: Files, stack: seq<string>, name: string, st: State)
    requires stack != [] && Top(stack) in st.compiled
    ensures OnceKept(st, Merge(files, stack, name, st).st)
    decreases |Left(files, st)|, 0, 0
  {
    hide Lines, Trim;
    if name !in st.compiled && name in files {
      StartLeavesFewer(files, st, name);
      LinesKeepOnce(files, stack + [name], files[name], Start(st, name));
    }
  }

  /** Once a file has read #pragma once, whatever is read afterwards, including it adds nothing:
      no text, no report, and the file is not read again. */
  lemma OncePasted(files: Files, stack: seq<string>, lines: seq<Line>, st: State, name: string, stack': seq<string>)
    requires stack != [] && Top(stack) in st.compiled && name in st.compiled && st.compiled[name].once
    requires stack' != [] && Top(stack') in Lines(files, stack, lines, st).1.compiled
    ensures var st' := Lines(files, stack, lines, st).1;
            Merge(files, stack', name, st') == Merged("", st') && Merge(files, stack, name, st) == Merged("", st)
  {
    hide Lines;
    LinesKeepOnce(files, stack, lines, st);
  }

  // ----- files without includes

  /** The text of lines that include nothing; a pragma leaves an empty line. */
  function Rendered(lines: seq<Line>): string {
    if lines == [] then ""
    else (if lines[0].Text? then lines[0].s else "") + "\n" + Rendered(lines[1..])
  }

  predicate NoIncludes(lines: seq<Line>) {
    forall i :: 0 <= i < |lines| ==> lines[i].Text? || lines[i].PragmaOnce? || lines[i].BadPragma?
  }

  function BadPragmas(lines: seq<Line>): nat {
    if lines == [] then 0 else (if lines[0].BadPragma? then 1 else 0) + BadPragmas(lines[1..])
  }

  predicate HasOnce(lines: seq<Line>) { exists i :: 0 <= i < |lines| && lines[i].PragmaOnce? }

  /** The state after lines that include nothing: their text appended in order, unknown pragmas
      counted as errors, #pragma once remembered. */
  function AfterPlain(st: State, name: string, lines: seq<Line>): State
    requires name in st.compiled
  {
    var c := st.compiled[name];
    var read := c.(content := c.content + Rendered(lines), once := c.once || HasOnce(lines));
    st.(compiled := st.compiled[name := read], errors := st.errors + BadPragmas(lines))
  }

  /** Reading lines that include nothing leaves that state, and what follows them is then read. */
  lemma {:induction false} PlainLinesRead(files: Files, stack: seq<string>, lines: seq<Line>, rest: seq<Line>,
                                          st: State)
    requires stack != [] && Top(stack) in st.compiled && NoIncludes(lines)
    ensures Top(stack) in AfterPlain(st, Top(stack), lines).compiled
    ensures Lines(files, stack, lines + rest, st) == Lines(files, stack, rest, AfterPlain(st, Top(stack), lines))
    decreases |lines|
  {
    hide Lines, AfterPlain, Append;
    var name := Top(stack);
    if lines == [] {
      assert lines + rest == rest;
      AfterNothing(st, name);
    } else {
      var all := lines + rest;
      assert all[0..] == all && all[1..] == lines[1..] + rest && all[0] == lines[0];
      PlainRound(files, stack, all, 0, st);
      AfterLine(st, name, lines[0]);
      AfterRest(st, name, lines);
      PlainLinesRead(files, stack, lines[1..], rest, AfterPlain(st, name, [lines[0]]));
    }
  }

  lemma AfterNothing(st: State, name: string)
    requires name in st.compiled
    ensures AfterPlain(st, name, []) == st
  {
    assert st.compiled[name].content + "" == st.compiled[name].content;
    assert st.compiled[name := st.compiled[name]] == st.compiled;
  }

  /** The three ways to read such a line, as one. */
  lemma AfterLine(st: State, name: string, l: Line)
    requires name in st.compiled
    ensures name in AfterPlain(st, name, [l]).compiled
    ensures l.Text? ==> Append(st, name, l.s + "\n") == AfterPlain(st, name, [l])
    ensures l.PragmaOnce? ==>
              Append(st.(compiled := st.compiled[name := st.compiled[name].(once := true)]), name, "\n")
              == AfterPlain(st, name, [l])
    ensures l.BadPragma? ==> Append(st.(errors := st.errors + 1), name, "\n") == AfterPlain(st, name, [l])
  {
    hide Rendered, BadPragmas, HasOnce;
    OneRendered(l);
    var c := AfterPlain(st, name, [l]).compiled[name];
    var c1 := st.compiled[name].(once := true);
    assert st.compiled[name := c1][name := c] == st.compiled[name := c];
  }

  lemma OneRendered(l: Line)
    ensures Rendered([l]) == if l.Text? then l.s + "\n" else "\n"
    ensures BadPragmas([l]) == if l.BadPragma? then 1 else 0
    ensures HasOnce([l]) <==> l.PragmaOnce?
  {
    assert [l][0] == l && [l][1..] == [] && Rendered([]) == "";
    var text := (if l.Text? then l.s else "") + "\n";
    assert text + "" == text;
    OnceSomewhere([l]);
  }

  lemma RenderedRest(lines: seq<Line>)
    requires lines != []
    ensures Rendered(lines) == Rendered([lines[0]]) + Rendered(lines[1..])
    ensures BadPragmas(lines) == BadPragmas([lines[0]]) + BadPragmas(lines[1..])
    ensures HasOnce(lines) <==> HasOnce([lines[0]]) || HasOnce(lines[1..])
  {
    OneRendered(lines[0]);
    OnceSomewhere(lines);
  }

  lemma AfterRest(st: State, name: string, lines: seq<Line>)
    requires name in st.compiled && lines != []
    ensures var st1 := AfterPlain(st, name, [lines[0]]);
            name in st1.compiled && AfterPlain(st1, name, lines[1..]) == AfterPlain(st, name, lines)
  {
    hide Rendered, BadPragmas, HasOnce;
    RenderedRest(lines);
    var st1 := AfterPlain(st, name, [lines[0]]);
    var text := Rendered([lines[0]]);
    assert st.compiled[name].content + text + Rendered(lines[1..]) == st.compiled[name].content + Rendered(lines);
    var c := AfterPlain(st, name, lines).compiled[name];
    assert st1.compiled[name := c] == st.compiled[name := c];
  }

  lemma OnceSomewhere(lines: seq<Line>)
    requires lines != []
    ensures HasOnce(lines) <==> lines[0].PragmaOnce? || HasOnce(lines[1..])
  {
    if HasOnce(lines[1..]) {
      var i :| 0 <= i < |lines[1..]| && lines[1..][i].PragmaOnce?;
      assert lines[i + 1].PragmaOnce?;
    }
    if HasOnce(lines) && !lines[0].PragmaOnce? {
      var i :| 0 <= i < |lines| && lines[i].PragmaOnce?;
      assert lines[1..][i - 1].PragmaOnce?;
    }
  }

  /** A file without includes: its text, and it is finished. */
  lemma PlainFileRead(files: Files, stack: seq<string>, lines: seq<Line>, st: State)
    requires stack != [] && Top(stack) in st.compiled && NoIncludes(lines) && st.compiled[Top(stack)].content == ""
    ensures var r := Lines(files, stack, lines, st);
            && r.0 == Rendered(lines) && Top(stack) in r.1.compiled && r.1.compiled[Top(stack)].finalized
            && r.1.compiled[Top(stack)].content == Rendered(lines)
            && r.1.compiled[Top(stack)].once == (st.compiled[Top(stack)].once || HasOnce(lines))
            && r.1.errors == st.errors + BadPragmas(lines) && r.1.warnings == st.warnings
  {
    hide Lines;
    PlainLinesRead(files, stack, lines, [], st);
    assert lines + [] == lines && "" + Rendered(lines) == Rendered(lines);
    LinesEnd(files, stack, AfterPlain(st, Top(stack), lines));
  }

  /** A file without includes is pasted without the blanks around it when it is first included,
      with a warning if nothing is left; after that with them, or not at all if it has
      #pragma once. */
  lemma PlainFileTwice(files: Files, stack: seq<string>, name: string, st: State)
    requires stack != [] && Top(stack) in st.compiled && name in files && name !in st.compiled
    requires NoIncludes(files[name])
    ensures var text, m := Rendered(files[name]), Merge(files, stack, name, st);
            && m.Merged? && BlankAround(m.text, text)
            && (m.text != "" ==> !Blank(m.text[..1]) && !Blank(m.text[|m.text| - 1..]))
            && m.st.errors == st.errors + BadPragmas(files[name])
            && m.st.warnings == st.warnings + (if Blank(text) then 1 else 0)
            && Merge(files, stack, name, m.st) == Merged(if HasOnce(files[name]) then "" else text, m.st)
  {
    hide Lines, Trim, Blank, BlankAround, Rendered, HasOnce, BadPragmas;
    var lines := files[name];
    StartLeavesFewer(files, st, name);
    PlainFileRead(files, stack + [name], lines, Start(st, name));
    TrimBlank(Rendered(lines));
    if Trim(Rendered(lines)) == "" { NothingAround(Rendered(lines)); }
  }

  lemma NothingAround(s: string)
    requires BlankAround("", s)
    ensures Blank(s)
  {
    var i: nat :| i <= |s| && s[i..i] == "" && Blank(s[..i]) && Blank(s[i..]);
    BlankConcat(s[..i], s[i..]);
    assert s[..i] + s[i..] == s;
  }

  /** A malformed include, or one that names no file, gives the file up: nothing is returned,
      one error is reported, and the rest of it is not read. */
  lemma FileGivenUp(files: Files, stack: seq<string>, l: Line, rest: seq<Line>, st: State)
    requires stack != [] && Top(stack) in st.compiled
    requires l.BadInclude? || (l.Include? && forall n :: n in l.names ==> n !in files && n !in st.compiled)
    ensures Lines(files, stack, [l] + rest, st) ==
            ("", st.(errors := st.errors + 1, aborted := st.aborted + {Top(stack)}))
  {
    hide Lines, Search;
    var all := [l] + rest;
    assert all[0..] == all && all[0] == l;
    if l.BadInclude? {
      PlainRound(files, stack, all, 0, st);
    } else {
      IncludeRound(files, stack, all, 0, st);
      NothingFound(files, stack, l.names, st);
    }
  }

  lemma {:induction false} NothingFound(files: Files, stack: seq<string>, names: seq<string>, st: State)
    requires stack != [] && Top(stack) in st.compiled && forall n :: n in names ==> n !in files && n !in st.compiled
    ensures Search(files, stack, names, st) == Missing(st)
    decreases |names|
  {
    hide Merge;
    if names != [] {
      MergeMissing(files, stack, names[0], st);
      NothingFound(files, stack, names[1..], st);
    }
  }

  // ----- the expander itself

  /** One round of the line loop, at line `i` of the file on top of the stack. */
  lemma PlainRound(files: Files, stack: seq<string>, lines: seq<Line>, i: nat, st: State)
    requires stack != [] && Top(stack) in st.compiled && i < |lines|
    ensures var name := Top(stack);
            var r := Lines(files, stack, lines[i..], st);
            var c := st.compiled[name];
            && (lines[i].Text? ==> r == Lines(files, stack, lines[i + 1..], Append(st, name, lines[i].s + "\n")))
            && (lines[i].PragmaOnce? ==>
                  r == Lines(files, stack, lines[i + 1..],
                             Append(st.(compiled := st.compiled[name := c.(once := true)]), name, "\n")))
            && (lines[i].BadPragma? ==>
                  r == Lines(files, stack, lines[i + 1..], Append(st.(errors := st.errors + 1), name, "\n")))
            && (lines[i].BadInclude? ==> r == ("", Abort(st.(errors := st.errors + 1), name)))
  {
    hide Search;
    assert lines[i..][0] == lines[i] && lines[i..][1..] == lines[i + 1..];
  }

  lemma IncludeRound(files: Files, stack: seq<string>, lines: seq<Line>, i: nat, st: State)
    requires stack != [] && Top(stack) in st.compiled && i < |lines| && lines[i].Include?
    ensures var r := Lines(files, stack, lines[i..], st);
            var m := Search(files, stack, lines[i].names, st);
            && (m.Missing? ==> r == ("", Abort(m.st.(errors := m.st.errors + 1), Top(stack))))
            && (m.Failed? ==> r == ("", Abort(m.st, Top(stack))))
            && (m.Merged? ==> r == Lines(files, stack, lines[i + 1..], Append(m.st, Top(stack), m.text + "\n")))
  {
    hide Search;
    assert lines[i..][0] == lines[i] && lines[i..][1..] == lines[i + 1..];
  }

  lemma LinesEnd(files: Files, stack: seq<string>, st: State)
    requires stack != [] && Top(stack) in st.compiled
    ensures var c := st.compiled[Top(stack)];
            Lines(files, stack, [], st) ==
            (c.content, st.(compiled := st.compiled[Top(stack) := c.(finalized := true)]))
  {
  }

  class Expander {
    const files: Files
    var compiled: map<string, Code>
    var errors: nat
    var warnings: nat
    ghost var started: seq<string>
    ghost var aborted: set<string>
    ghost var loops: seq<Loop>

    ghost function View(): State
      reads this
    {
      State(compiled, errors, warnings, started, aborted, loops)
    }

    constructor (files: Files)
      ensures this.files == files && View() == Fresh
    {
      this.files := files;
      compiled, errors, warnings := map[], 0, 0;
      started, aborted, loops := [], {}, [];
    }

    method AppendTo(name: string, text: string)
      requires name in compiled
      modifies this`compiled
      ensures View() == Append(old(View()), name, text)
    {
      var c := compiled[name];
      compiled := compiled[name := c.(content := c.content + text)];
    }

    /** One line of a file being compiled; true when the file has to be given up. */
    method ReadLine(ghost stack: seq<string>, name: string, lines: seq<Line>, i: nat) returns (giveUp: bool)
      requires stack != [] && Top(stack) == name && name in compiled && i < |lines|
      modifies this
      ensures old(compiled).Keys <= compiled.Keys
      ensures Lines(files, stack, lines[i..], old(View())) ==
              if giveUp then ("", View()) else Lines(files, stack, lines[i + 1..], View())
      decreases |Left(files, View())|, 3
    {
      hide Search, Lines, Left;
      PlainRound(files, stack, lines, i, View());
      giveUp := false;
      match lines[i]
      case Text(s) => AppendTo(name, s + "\n");
      case PragmaOnce =>
        compiled := compiled[name := compiled[name].(once := true)];
        AppendTo(name, "\n");
      case BadPragma =>
        errors := errors + 1;
        AppendTo(name, "\n");
      case BadInclude =>
        errors := errors + 1;
        aborted := aborted + {name};
        giveUp := true;
      case Include(names) =>
        giveUp := IncludeLine(stack, name, lines, i);
    }

    method IncludeLine(ghost stack: seq<string>, name: string, lines: seq<Line>, i: nat) returns (giveUp: bool)
      requires stack != [] && Top(stack) == name && name in compiled && i < |lines| && lines[i].Include?
      modifies this
      ensures old(compiled).Keys <= compiled.Keys
      ensures Lines(files, stack, lines[i..], old(View())) ==
              if giveUp then ("", View()) else Lines(files, stack, lines[i + 1..], View())
      decreases |Left(files, View())|, 2
    {
      hide Search, Lines, Left;
      IncludeRound(files, stack, lines, i, View());
      var ret, text := FindAndMerge(stack, lines[i].names);
      if ret == 1 {
        AppendTo(name, text + "\n");
        giveUp := false;
      } else {
        if ret == 0 { errors := errors + 1; }
        aborted := aborted + {name};
        giveUp := true;
      }
    }

    /** _Compile: the text handed to the includer, empty when the file is given up. */
    method CompileFile(ghost below: seq<string>, name: string) returns (text: string)
      requires name in files && name !in compiled
      modifies this
      ensures old(compiled).Keys <= compiled.Keys
      ensures (text, View()) == Lines(files, below + [name], files[name], Start(old(View()), name))
      decreases |Left(files, View())|, 0
    {
      hide Lines, Left;
      ghost var stack, before := below + [name], View();
      StartLeavesFewer(files, before, name);
      compiled := compiled[name := Code("", false, false)];
      started := started + [name];
      ghost var begun := View();
      var lines := files[name];
      var i := 0;
      assert lines[0..] == lines;
      while i < |lines|
        invariant i <= |lines| && name in compiled && old(compiled).Keys <= compiled.Keys
        invariant |Left(files, View())| < |Left(files, before)|
        invariant Lines(files, stack, lines[i..], View()) == Lines(files, stack, lines, begun)
      {
        ghost var now := View();
        var giveUp := ReadLine(stack, name, lines, i);
        if giveUp { return ""; }
        FewerLeft(files, now, View());
        i := i + 1;
      }
      assert lines[i..] == [];
      LinesEnd(files, stack, View());
      text := compiled[name].content;
      compiled := compiled[name := compiled[name].(finalized := true)];
    }

    /** The search over the candidate names: 1 merged, 0 none exists, -1 error. */
    method FindAndMerge(ghost stack: seq<string>, names: seq<string>) returns (ret: int, text: string)
      requires stack != [] && Top(stack) in compiled
      modifies this
      ensures old(compiled).Keys <= compiled.Keys
      ensures var m := Search(files, stack, names, old(View()));
              && View() == m.st && ret == (if m.Missing? then 0 else if m.Failed? then -1 else 1)
              && (m.Merged? ==> text == m.text)
      decreases |Left(files, View())|, 1, 1
    {
      hide Merge;
      ret, text := 0, "";
      var k := 0;
      assert names[0..] == names;
      while k < |names| && ret == 0
        invariant k <= |names| && Top(stack) in compiled && old(compiled).Keys <= compiled.Keys
        invariant ret == 0 ==> View() == old(View())
        invariant ret == 0 ==> Search(files, stack, names[k..], View()) == Search(files, stack, names, old(View()))
        invariant ret == 1 ==> Search(files, stack, names, old(View())) == Merged(text, View())
        invariant ret == -1 ==> Search(files, stack, names, old(View())) == Failed(View())
        invariant -1 <= ret <= 1
        decreases |names| - k
      {
        assert names[k..][0] == names[k] && names[k..][1..] == names[k + 1..];
        ret, text := MergeIncludedFile(stack, names[k]);
        k := k + 1;
      }
      assert ret == 0 ==> names[k..] == [];
    }

    method MergeIncludedFile(ghost stack: seq<string>, name: string) returns (ret: int, text: string)
      requires stack != [] && Top(stack) in compiled
      modifies this
      ensures old(compiled).Keys <= compiled.Keys
      ensures var m := Merge(files, stack, name, old(View()));
              && View() == m.st && ret == (if m.Missing? then 0 else if m.Failed? then -1 else 1)
              && (m.Merged? ==> text == m.text)
      decreases |Left(files, View())|, 1, 0
    {
      hide Lines, Trim;
      ret, text := 1, "";
      if name in compiled {
        var c := compiled[name];
        if c.once {
        } else if c.finalized {
          text := c.content;
        } else {
          errors := errors + 1;
          loops := loops + [Loop(name, c, stack, aborted)];
          ret := -1;
        }
      } else if name in files {
        var imported := CompileFile(stack, name);
        text := Trim(imported);
        if text == "" { warnings := warnings + 1; }
      } else {
        ret := 0;
      }
    }
  }
}
