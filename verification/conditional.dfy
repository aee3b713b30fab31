/** Conditional compilation of core/os/precompiler.cpp: the flat, stackless scanner of
    _SubsituteFile against the structured reading of nested #if blocks. Lines are already
    classified; evaluating conditions and substituting macros in text are functions of the
    macro table. */
module Conditional {

  datatype Macro = Macro(args: int, value: string)   // args == -1: not a macro function
  type Table = map<string, Macro>

  datatype Line =
    | Text(s: string)
    | Define(name: string, value: string)
    | DefineFunction(name: string, args: nat, value: string)
    | Undef(name: string)
    | If(cond: string)
    | Elif(cond: string)
    | Else
    | Endif

  datatype Eval = Bad | Good(holds: bool)

  datatype Env = Env(predefined: set<string>, eval: (string, Table) -> Eval, subst: (string, Table) -> string)

  /** What a run leaves behind; `level` is the scanner's own branch_level. */
  datatype Core = Core(macros: Table, out: seq<string>, errors: nat, warnings: nat)
  datatype State = State(core: Core, level: nat)

  predicate IsClose(l: Line) { l.Elif? || l.Else? || l.Endif? }
  predicate IsPlain(l: Line) { !IsClose(l) && !l.If? }

  // ----- single lines

  function DefineMacro(env: Env, c: Core, name: string, value: string): Core {
    if name in env.predefined then c.(errors := c.errors + 1)
    else if name in c.macros && (c.macros[name].args >= 0 || c.macros[name].value != value) then
      c.(errors := c.errors + 1)
    else c.(macros := c.macros[name := Macro(-1, value)])
  }

  function DefineMacroFunction(env: Env, c: Core, name: string, args: nat, value: string): Core {
    if name in env.predefined || name in c.macros then c.(errors := c.errors + 1)
    else c.(macros := c.macros[name := Macro(args, value)])
  }

  function UndefineMacro(env: Env, c: Core, name: string): Core {
    if name in env.predefined then c.(errors := c.errors + 1)
    else if name in c.macros then c.(macros := c.macros - {name})
    else c.(warnings := c.warnings + 1)
  }

  function Plain(env: Env, c: Core, l: Line): Core
    requires IsPlain(l)
  {
    match l
    case Text(s) => c.(out := c.out + [env.subst(s, c.macros)])
    case Define(name, value) => DefineMacro(env, c, name, value)
    case DefineFunction(name, args, value) => DefineMacroFunction(env, c, name, args, value)
    case Undef(name) => UndefineMacro(env, c, name)
  }

  /** Does the branch opened by `l` apply? */
  function Holds(env: Env, c: Core, l: Line): bool
    requires l.If? || l.Elif? || l.Else?
  {
    l.Else? || env.eval(l.cond, c.macros) == Good(true)
  }

  /** A condition that cannot be evaluated is reported by the evaluator and by the caller. */
  function Report(env: Env, c: Core, l: Line): Core
    requires l.If? || l.Elif? || l.Else?
  {
    if !l.Else? && env.eval(l.cond, c.macros).Bad? then c.(errors := c.errors + 2) else c
  }

  // ----- the flat scanner

  /** _SeekToNextCloseDirective: lines to skip before the closing directive at enclosure
      level 0; all of them when there is none. */
  function Seek(lines: seq<Line>, level: nat): (k: nat)
    ensures k <= |lines| && (k < |lines| ==> IsClose(lines[k]))
  {
    if lines == [] || (level == 0 && IsClose(lines[0])) then 0
    else
      1 + Seek(lines[1..], if lines[0].If? then level + 1 else if lines[0].Endif? then level - 1 else level)
  }

  /** The loop over all branches, entered on the directive at the head of `lines`: where
      scanning goes on, and the state. */
  function Branch(env: Env, lines: seq<Line>, s: State): (r: (seq<Line>, State))
    requires lines != [] && (lines[0].If? || lines[0].Elif? || lines[0].Else?)
    ensures |r.0| < |lines|
    decreases |lines|
  {
    var rest := lines[1..];
    var c := Report(env, s.core, lines[0]);
    if Holds(env, s.core, lines[0]) then (rest, State(c, s.level + 1))
    else
      var k := Seek(rest, 0);
      if k == |rest| then ([], State(c.(errors := c.errors + 1), s.level))
      else if rest[k].Endif? then (rest[k + 1..], State(c, s.level))
      else Branch(env, rest[k..], State(c, s.level))
  }

  /** One round of the branch loop, at line `i` of a text. */
  lemma BranchRound(env: Env, lines: seq<Line>, i: nat, s: State)
    requires i < |lines| && (lines[i].If? || lines[i].Elif? || lines[i].Else?)
    ensures var c := Report(env, s.core, lines[i]);
            var k := i + 1 + Seek(lines[i + 1..], 0);
            var r := Branch(env, lines[i..], s);
            if Holds(env, s.core, lines[i]) then r == (lines[i + 1..], State(c, s.level + 1))
            else if k == |lines| then r == ([], State(c.(errors := c.errors + 1), s.level))
            else if lines[k].Endif? then r == (lines[k + 1..], State(c, s.level))
            else IsClose(lines[k]) && r == Branch(env, lines[k..], State(c, s.level))
  {
    hide Seek, Report, Holds;
    var rest := lines[i + 1..];
    assert lines[i..][1..] == rest;
    var k := Seek(rest, 0);
    if k < |rest| {
      assert rest[k..] == lines[i + 1 + k..] && rest[k] == lines[i + 1 + k];
      assert rest[k + 1..] == lines[i + 2 + k..];
    }
  }

  /** From a closing directive of a branch that was taken: skip to the matching #endif. */
  function Skip(lines: seq<Line>): (r: (seq<Line>, bool))
    requires lines != []
    ensures |r.0| < |lines|
    decreases |lines|
  {
    var rest := lines[1..];
    if lines[0].Endif? then (rest, true)
    else
      var k := Seek(rest, 0);
      if k == |rest| then ([], false) else Skip(rest[k..])
  }

  /** branch_level is only ever incremented, so an unmatched close is reported only while
      no branch has been taken. */
  function Close(s: State, found: bool): State {
    var c := if found then s.core else s.core.(errors := s.core.errors + 1);
    if s.level > 0 then State(c, s.level + 1) else State(c.(errors := c.errors + 1), s.level)
  }

  function Flat(env: Env, lines: seq<Line>, s: State): State
    decreases |lines|
  {
    if lines == [] then s
    else if IsPlain(lines[0]) then Flat(env, lines[1..], s.(core := Plain(env, s.core, lines[0])))
    else if lines[0].If? then
      var r := Branch(env, lines, s);
      Flat(env, r.0, r.1)
    else
      var r := Skip(lines);
      Flat(env, r.0, Close(s, r.1))
  }

  // ----- the structured reading

  datatype Items = Nil | Cons(head: Item, tail: Items)
  datatype Item = Single(l: Line) | Block(cond: string, body: Items, arms: Arms)
  datatype Arms = EndArms | Arm(opening: Line, body: Items, rest: Arms)

  predicate WellFormed(items: Items) {
    match items
    case Nil => true
    case Cons(Single(l), tail) => IsPlain(l) && WellFormed(tail)
    case Cons(Block(_, body, arms), tail) => WellFormed(body) && WellFormedArms(arms) && WellFormed(tail)
  }

  predicate WellFormedArms(arms: Arms) {
    match arms
    case EndArms => true
    case Arm(l, body, rest) => (l.Elif? || l.Else?) && WellFormed(body) && WellFormedArms(rest)
  }

  function Flatten(items: Items): seq<Line> {
    match items
    case Nil => []
    case Cons(Single(l), tail) => [l] + Flatten(tail)
    case Cons(Block(cond, body, arms), tail) =>
      [If(cond)] + Flatten(body) + FlattenArms(arms) + Flatten(tail)
  }

  function FlattenArms(arms: Arms): (ls: seq<Line>)
    ensures ls != []
  {
    match arms
    case EndArms => [Endif]
    case Arm(l, body, rest) => [l] + Flatten(body) + FlattenArms(rest)
  }

  /** Interpreting the block tree: the first branch whose condition holds is read. */
  function Tree(env: Env, items: Items, c: Core): Core
    requires WellFormed(items)
  {
    match items
    case Nil => c
    case Cons(Single(l), tail) => Tree(env, tail, Plain(env, c, l))
    case Cons(Block(cond, body, arms), tail) =>
      var c' := Report(env, c, If(cond));
      Tree(env, tail, if Holds(env, c, If(cond)) then Tree(env, body, c') else TreeArms(env, arms, c'))
  }

  function TreeArms(env: Env, arms: Arms, c: Core): Core
    requires WellFormedArms(arms)
  {
    match arms
    case EndArms => c
    case Arm(l, body, rest) =>
      var c' := Report(env, c, l);
      if Holds(env, c, l) then Tree(env, body, c') else TreeArms(env, rest, c')
  }

  /** Does reading the tree enter any branch? */
  predicate Takes(env: Env, items: Items, c: Core)
    requires WellFormed(items)
  {
    match items
    case Nil => false
    case Cons(Single(l), tail) => Takes(env, tail, Plain(env, c, l))
    case Cons(Block(cond, body, arms), tail) =>
      var c' := Report(env, c, If(cond));
      Holds(env, c, If(cond)) || TakesArm(env, arms, c') || Takes(env, tail, TreeArms(env, arms, c'))
  }

  predicate TakesArm(env: Env, arms: Arms, c: Core)
    requires WellFormedArms(arms)
  {
    match arms
    case EndArms => false
    case Arm(l, body, rest) => Holds(env, c, l) || TakesArm(env, rest, Report(env, c, l))
  }

  // ----- skipping goes over whole trees

  lemma Concat3<T>(a: seq<T>, b: seq<T>, c: seq<T>)
    ensures (a + b) + c == a + (b + c)
  {
  }

  lemma Concat5<T>(a: seq<T>, b: seq<T>, c: seq<T>, d: seq<T>, e: seq<T>)
    ensures (a + b + c + d) + e == a + (b + (c + (d + e)))
  {
  }

  lemma SeekOne(l: Line, rest: seq<Line>, level: nat)
    requires !(level == 0 && IsClose(l))
    ensures Seek([l] + rest, level) ==
            1 + Seek(rest, if l.If? then level + 1 else if l.Endif? then level - 1 else level)
  {
    assert ([l] + rest)[1..] == rest;
  }

  lemma SeekAt(lines: seq<Line>, i: nat, level: nat)
    requires i < |lines|
    ensures level == 0 && IsClose(lines[i]) ==> Seek(lines[i..], level) == 0
    ensures !(level == 0 && IsClose(lines[i])) ==>
              Seek(lines[i..], level) ==
              1 + Seek(lines[i + 1..], if lines[i].If? then level + 1 else if lines[i].Endif? then level - 1 else level)
  {
    assert lines[i..][1..] == lines[i + 1..];
  }

  lemma SeekNowhere(lines: seq<Line>, level: nat)
    requires lines == []
    ensures Seek(lines, level) == 0
  {
  }

  lemma {:induction false} SeekItems(items: Items, level: nat, rest: seq<Line>)
    requires WellFormed(items)
    ensures Seek(Flatten(items) + rest, level) == |Flatten(items)| + Seek(rest, level)
    decreases items
  {
    hide Seek;
    match items
    case Nil => assert Flatten(items) + rest == rest;
    case Cons(Single(l), tail) =>
      Concat3([l], Flatten(tail), rest);
      SeekOne(l, Flatten(tail) + rest, level);
      SeekItems(tail, level, rest);
    case Cons(Block(cond, body, arms), tail) =>
      var x := Flatten(tail) + rest;
      Concat5([If(cond)], Flatten(body), FlattenArms(arms), Flatten(tail), rest);
      SeekOne(If(cond), Flatten(body) + (FlattenArms(arms) + x), level);
      SeekItems(body, level + 1, FlattenArms(arms) + x);
      SeekArms(arms, level + 1, x);
      SeekItems(tail, level, rest);
  }

  /** Inside a block, at level 1 or more, its arms and #endif are passed over. */
  lemma {:induction false} SeekArms(arms: Arms, level: nat, rest: seq<Line>)
    requires WellFormedArms(arms) && level >= 1
    ensures Seek(FlattenArms(arms) + rest, level) == |FlattenArms(arms)| + Seek(rest, level - 1)
    decreases arms
  {
    hide Seek;
    match arms
    case EndArms => SeekOne(Endif, rest, level);
    case Arm(l, body, more) =>
      var x := FlattenArms(more) + rest;
      assert FlattenArms(arms) + rest == [l] + (Flatten(body) + x);
      SeekOne(l, Flatten(body) + x, level);
      SeekItems(body, level, x);
      SeekArms(more, level, rest);
  }

  lemma ArmsOpenWithClose(arms: Arms, x: seq<Line>)
    requires WellFormedArms(arms)
    ensures IsClose((FlattenArms(arms) + x)[0]) && Seek(FlattenArms(arms) + x, 0) == 0
  {
  }

  /** From a branch's opening line, seeking lands on the first line of its arms. */
  lemma SeekOverBody(l: Line, body: Items, arms: Arms, x: seq<Line>)
    requires WellFormed(body) && WellFormedArms(arms)
    ensures var rest := ([l] + Flatten(body) + FlattenArms(arms) + x)[1..];
            var k := Seek(rest, 0);
            k == |Flatten(body)| < |rest| && rest[k..] == FlattenArms(arms) + x && rest[k] == FlattenArms(arms)[0]
  {
    hide Seek, Flatten, FlattenArms, WellFormed, WellFormedArms;
    var y := FlattenArms(arms) + x;
    assert ([l] + Flatten(body) + FlattenArms(arms) + x)[1..] == Flatten(body) + y;
    SeekItems(body, 0, y);
    ArmsOpenWithClose(arms, x);
    assert (Flatten(body) + y)[|Flatten(body)|..] == y;
  }

  lemma {:induction false} SkipArms(arms: Arms, x: seq<Line>)
    requires WellFormedArms(arms)
    ensures Skip(FlattenArms(arms) + x) == (x, true)
    decreases arms
  {
    var ls := FlattenArms(arms) + x;
    match arms
    case EndArms => assert ls[1..] == x;
    case Arm(l, body, more) =>
      SeekOverBody(l, body, more, x);
      SkipArms(more, x);
  }

  // ----- the scanner reads the tree

  /** On the text of a well-nested tree the scanner ends in the tree's own result, with a
      branch level at least as high as before. */
  lemma {:induction false} FlatReadsTree(env: Env, items: Items, x: seq<Line>, s: State) returns (level: nat)
    requires WellFormed(items)
    ensures level >= s.level && (level > s.level <==> Takes(env, items, s.core))
    ensures Flat(env, Flatten(items) + x, s) == Flat(env, x, State(Tree(env, items, s.core), level))
    decreases |Flatten(items)|
  {
    hide Seek, Skip, Branch, Plain, Report, Holds;
    var ls := Flatten(items) + x;
    match items
    case Nil =>
      assert ls == x;
      level := s.level;
    case Cons(Single(l), tail) =>
      assert ls[0] == l && ls[1..] == Flatten(tail) + x;
      level := FlatReadsTree(env, tail, x, s.(core := Plain(env, s.core, l)));
    case Cons(Block(cond, body, arms), tail) =>
      var y := Flatten(tail) + x;
      assert ls == [If(cond)] + Flatten(body) + FlattenArms(arms) + y;
      var mid := FlatReadsBranch(env, If(cond), body, arms, y, s);
      var c := if Holds(env, s.core, If(cond)) then Tree(env, body, Report(env, s.core, If(cond)))
               else TreeArms(env, arms, Report(env, s.core, If(cond)));
      level := FlatReadsTree(env, tail, x, State(c, mid));
  }

  /** The branch loop from one opening line: its body, or the arms after it. */
  lemma {:induction false} FlatReadsBranch(env: Env, l: Line, body: Items, arms: Arms, y: seq<Line>, s: State)
    returns (level: nat)
    requires WellFormed(body) && WellFormedArms(arms) && (l.If? || l.Elif? || l.Else?)
    ensures level >= s.level
    ensures level > s.level <==> Holds(env, s.core, l) || TakesArm(env, arms, Report(env, s.core, l))
    ensures var r := Branch(env, [l] + Flatten(body) + FlattenArms(arms) + y, s);
            var c := Report(env, s.core, l);
            Flat(env, r.0, r.1) ==
            Flat(env, y, State(if Holds(env, s.core, l) then Tree(env, body, c) else TreeArms(env, arms, c), level))
    decreases |Flatten(body)| + |FlattenArms(arms)|
  {
    hide Seek, Skip, Plain, Branch, Report, Holds, Flat, Tree, Takes, Flatten, FlattenArms, WellFormed;
    var ls := [l] + Flatten(body) + FlattenArms(arms) + y;
    var c := Report(env, s.core, l);
    var k := 1 + |Flatten(body)|;
    BranchRound(env, ls, 0, s);
    assert ls[0..] == ls;
    BranchText(l, body, arms, y);
    ArmsText(arms, y);
    if Holds(env, s.core, l) {
      var mid := FlatReadsTree(env, body, FlattenArms(arms) + y, State(c, s.level + 1));
      level := CloseTaken(env, arms, y, State(Tree(env, body, c), mid));
    } else {
      match arms
      case EndArms =>
        level := s.level;
        assert ls[k..][1..] == ls[k + 1..];
      case Arm(l', body', more) =>
        level := FlatReadsBranch(env, l', body', more, y, State(c, s.level));
    }
  }

  /** The text of one branch, from its opening line on, and where the scanner looks next. */
  lemma BranchText(l: Line, body: Items, arms: Arms, y: seq<Line>)
    requires WellFormed(body) && WellFormedArms(arms)
    ensures var ls, k := [l] + Flatten(body) + FlattenArms(arms) + y, 1 + |Flatten(body)|;
            && k < |ls| && ls[0] == l && ls[1..] == Flatten(body) + (FlattenArms(arms) + y)
            && Seek(ls[1..], 0) == k - 1 && ls[k..] == FlattenArms(arms) + y && ls[k] == (FlattenArms(arms) + y)[0]
  {
    hide Seek, Flatten, FlattenArms, WellFormed, WellFormedArms;
    var ls, k := [l] + Flatten(body) + FlattenArms(arms) + y, 1 + |Flatten(body)|;
    SeekOverBody(l, body, arms, y);
    assert ls[1..][k - 1..] == ls[k..];
  }

  lemma ArmsText(arms: Arms, y: seq<Line>)
    requires WellFormedArms(arms)
    ensures var t := FlattenArms(arms) + y;
            match arms
            case EndArms => t[0] == Endif && t[1..] == y
            case Arm(l, body, more) =>
              && t[0] == l && !l.Endif? && t == [l] + Flatten(body) + FlattenArms(more) + y
              && |FlattenArms(arms)| > |Flatten(body)| + |FlattenArms(more)|
              && WellFormed(body) && WellFormedArms(more) && (l.Elif? || l.Else?)
  {
    hide Flatten;
  }

  /** The close of a taken branch skips its remaining arms and reports nothing. */
  lemma CloseTaken(env: Env, arms: Arms, y: seq<Line>, s: State) returns (level: nat)
    requires WellFormedArms(arms) && s.level > 0
    ensures level > s.level && Flat(env, FlattenArms(arms) + y, s) == Flat(env, y, State(s.core, level))
  {
    hide Seek, Skip;
    SkipArms(arms, y);
    ArmsOpenWithClose(arms, y);
    level := s.level + 1;
  }

  /** For every well-nested text, the scanner emits the lines and leaves the macro table,
      errors and warnings that the block tree prescribes. */
  lemma ScannerAgreesWithTree(env: Env, items: Items, c: Core)
    requires WellFormed(items)
    ensures Flat(env, Flatten(items), State(c, 0)).core == Tree(env, items, c)
  {
    var level := FlatReadsTree(env, items, [], State(c, 0));
    assert Flatten(items) + [] == Flatten(items);
  }

  /** A stray #endif after well-nested text is reported exactly when no branch was taken
      before it: closing a branch raises the level instead of lowering it. */
  lemma StrayEndifReportedIff(env: Env, items: Items, c: Core)
    requires WellFormed(items)
    ensures Flat(env, Flatten(items) + [Endif], State(c, 0)).core.errors ==
            Tree(env, items, c).errors + if Takes(env, items, c) then 0 else 1
  {
    hide Tree, Takes, Flatten;
    var level := FlatReadsTree(env, items, [Endif], State(c, 0));
    assert [Endif][1..] == [];
    var s := State(Tree(env, items, c), level);
    assert Skip([Endif]) == ([], true);
    assert Flat(env, [Endif], s) == Flat(env, [], Close(s, true));
  }

  // ----- what reading does, line by line

  function Texts(ts: seq<string>): seq<Line> { seq(|ts|, i requires 0 <= i < |ts| => Text(ts[i])) }

  function Substituted(env: Env, ts: seq<string>, macros: Table): seq<string> {
    seq(|ts|, i requires 0 <= i < |ts| => env.subst(ts[i], macros))
  }

  /** Text lines are substituted and put behind what is already there, in order. */
  lemma {:induction false} TextsPass(env: Env, ts: seq<string>, rest: seq<Line>, s: State)
    ensures var out := s.core.out + Substituted(env, ts, s.core.macros);
            Flat(env, Texts(ts) + rest, s) == Flat(env, rest, s.(core := s.core.(out := out)))
    decreases |ts|
  {
    if ts == [] {
      assert Texts(ts) + rest == rest && s.core.out + Substituted(env, ts, s.core.macros) == s.core.out;
    } else {
      var out := s.core.out + [env.subst(ts[0], s.core.macros)];
      var all := Texts(ts) + rest;
      assert all[0] == Text(ts[0]) && all[1..] == Texts(ts[1..]) + rest;
      TextsPass(env, ts[1..], rest, s.(core := s.core.(out := out)));
      assert s.core.out + Substituted(env, ts, s.core.macros) == out + Substituted(env, ts[1..], s.core.macros);
    }
  }

  lemma PlainFirst(env: Env, l: Line, rest: seq<Line>, s: State)
    requires IsPlain(l)
    ensures Flat(env, [l] + rest, s) == Flat(env, rest, s.(core := Plain(env, s.core, l)))
  {
    hide Plain, Branch, Skip;
    assert ([l] + rest)[0] == l && ([l] + rest)[1..] == rest;
  }

  /** #define of a name that is free, or already means the same, sets exactly that name; a
      predefined name, a macro function or another value is left alone and reported. */
  lemma DefineLine(env: Env, name: string, value: string, rest: seq<Line>, s: State)
    ensures var m := s.core.macros;
            Flat(env, [Define(name, value)] + rest, s) ==
            if name !in env.predefined && (name in m ==> m[name].args < 0 && m[name].value == value)
            then Flat(env, rest, s.(core := s.core.(macros := m[name := Macro(-1, value)])))
            else Flat(env, rest, s.(core := s.core.(errors := s.core.errors + 1)))
  {
    hide Flat, Plain;
    PlainFirst(env, Define(name, value), rest, s);
    DefinePlain(env, name, 0, value, s.core);
  }

  lemma DefineFunctionLine(env: Env, name: string, args: nat, value: string, rest: seq<Line>, s: State)
    ensures var m := s.core.macros;
            Flat(env, [DefineFunction(name, args, value)] + rest, s) ==
            if name !in env.predefined && name !in m
            then Flat(env, rest, s.(core := s.core.(macros := m[name := Macro(args, value)])))
            else Flat(env, rest, s.(core := s.core.(errors := s.core.errors + 1)))
  {
    hide Flat, Plain;
    PlainFirst(env, DefineFunction(name, args, value), rest, s);
    DefinePlain(env, name, args, value, s.core);
  }

  lemma DefinePlain(env: Env, name: string, args: nat, value: string, c: Core)
    ensures var m := c.macros;
            Plain(env, c, Define(name, value)) ==
            if name !in env.predefined && (name in m ==> m[name].args < 0 && m[name].value == value)
            then c.(macros := m[name := Macro(-1, value)])
            else c.(errors := c.errors + 1)
    ensures var m := c.macros;
            Plain(env, c, DefineFunction(name, args, value)) ==
            if name !in env.predefined && name !in m then c.(macros := m[name := Macro(args, value)])
            else c.(errors := c.errors + 1)
  {
  }

  /** #undef takes exactly that name away; a predefined one is an error, an unknown one a
      warning. */
  lemma UndefLine(env: Env, name: string, rest: seq<Line>, s: State)
    ensures var m := s.core.macros;
            Flat(env, [Undef(name)] + rest, s) ==
            if name in env.predefined then Flat(env, rest, s.(core := s.core.(errors := s.core.errors + 1)))
            else if name in m then
              Flat(env, rest, s.(core := s.core.(macros := map n | n in m && n != name :: m[n])))
            else Flat(env, rest, s.(core := s.core.(warnings := s.core.warnings + 1)))
  {
    hide Flat, Plain;
    PlainFirst(env, Undef(name), rest, s);
    UndefPlain(env, name, s.core);
  }

  lemma UndefPlain(env: Env, name: string, c: Core)
    ensures var m := c.macros;
            Plain(env, c, Undef(name)) ==
            if name in env.predefined then c.(errors := c.errors + 1)
            else if name in m then c.(macros := map n | n in m && n != name :: m[n])
            else c.(warnings := c.warnings + 1)
  {
    var m := c.macros;
    assert m - {name} == map n | n in m && n != name :: m[n];
  }

  /** Choosing a branch changes neither macros nor output, and goes on inside the text. */
  lemma {:induction false} BranchKeeps(env: Env, lines: seq<Line>, s: State)
    requires lines != [] && (lines[0].If? || lines[0].Elif? || lines[0].Else?)
    ensures var r := Branch(env, lines, s);
            && r.1.core == s.core.(errors := r.1.core.errors) && r.1.core.errors >= s.core.errors
            && forall l :: l in r.0 ==> l in lines
    decreases |lines|
  {
    hide Seek, Holds;
    var rest := lines[1..];
    var k := Seek(rest, 0);
    var c := Report(env, s.core, lines[0]);
    if !Holds(env, s.core, lines[0]) && k < |rest| && !rest[k].Endif? {
      BranchKeeps(env, rest[k..], State(c, s.level));
    }
  }

  lemma {:induction false} SkipKeeps(lines: seq<Line>)
    requires lines != []
    ensures forall l :: l in Skip(lines).0 ==> l in lines
    decreases |lines|
  {
    hide Seek;
    var rest := lines[1..];
    var k := Seek(rest, 0);
    if !lines[0].Endif? && k < |rest| { SkipKeeps(rest[k..]); }
  }

  /** Whatever the text, well nested or not: output only grows at its end, errors and warnings
      never go down, and a macro that is defined keeps its meaning unless the text has an
      #undef of it. */
  lemma {:induction false} ReadingExtends(env: Env, lines: seq<Line>, s: State)
    ensures var c := Flat(env, lines, s).core;
            && s.core.out <= c.out && s.core.errors <= c.errors && s.core.warnings <= c.warnings
            && forall n :: n in s.core.macros && Undef(n) !in lines ==>
                 n in c.macros && c.macros[n].value == s.core.macros[n].value
                 && (c.macros[n].args < 0 <==> s.core.macros[n].args < 0)
    decreases |lines|
  {
    hide Branch, Skip, Plain;
    if lines != [] {
      var l := lines[0];
      if IsPlain(l) {
        assert l in lines;
        PlainExtends(env, l, s.core);
        ReadingExtends(env, lines[1..], s.(core := Plain(env, s.core, l)));
      } else if l.If? {
        BranchKeeps(env, lines, s);
        var r := Branch(env, lines, s);
        ReadingExtends(env, r.0, r.1);
      } else {
        SkipKeeps(lines);
        var r := Skip(lines);
        ReadingExtends(env, r.0, Close(s, r.1));
      }
    }
  }

  lemma PlainExtends(env: Env, l: Line, s: Core)
    requires IsPlain(l)
    ensures var c := Plain(env, s, l);
            && s.out <= c.out && s.errors <= c.errors && s.warnings <= c.warnings
            && forall n :: n in s.macros && Undef(n) != l ==>
                 n in c.macros && c.macros[n].value == s.macros[n].value
                 && (c.macros[n].args < 0 <==> s.macros[n].args < 0)
  {
  }

  // ----- which branch is read

  /** Text lines as a tree. */
  function Leaves(ts: seq<string>): Items {
    if ts == [] then Nil else Cons(Single(Text(ts[0])), Leaves(ts[1..]))
  }

  lemma {:induction false} LeavesFlat(ts: seq<string>)
    ensures WellFormed(Leaves(ts)) && Flatten(Leaves(ts)) == Texts(ts)
  {
    if ts != [] {
      LeavesFlat(ts[1..]);
      assert Texts(ts) == [Text(ts[0])] + Texts(ts[1..]);
    }
  }

  lemma LeavesTree(env: Env, ts: seq<string>, c: Core)
    ensures WellFormed(Leaves(ts))
    ensures Tree(env, Leaves(ts), c) == c.(out := c.out + Substituted(env, ts, c.macros))
  {
    LeavesFlat(ts);
    ScannerAgreesWithTree(env, Leaves(ts), c);
    TextsPass(env, ts, [], State(c, 0));
    assert Texts(ts) + [] == Texts(ts);
  }

  /** #elif after #elif, each with text lines, and #else. */
  datatype Choice = Choice(cond: string, texts: seq<string>)

  function Elifs(bs: seq<Choice>, otherwise: seq<string>): Arms {
    if bs == [] then Arm(Else, Leaves(otherwise), EndArms)
    else Arm(Elif(bs[0].cond), Leaves(bs[0].texts), Elifs(bs[1..], otherwise))
  }

  function ElifLines(bs: seq<Choice>, otherwise: seq<string>): seq<Line> {
    if bs == [] then [Else] + Texts(otherwise) + [Endif]
    else [Elif(bs[0].cond)] + Texts(bs[0].texts) + ElifLines(bs[1..], otherwise)
  }

  /** The texts of the first branch whose condition evaluates to true, and how many conditions
      before it cannot be evaluated. */
  function Chosen(env: Env, bs: seq<Choice>, otherwise: seq<string>, m: Table): seq<string> {
    if bs == [] then otherwise
    else if env.eval(bs[0].cond, m) == Good(true) then bs[0].texts
    else Chosen(env, bs[1..], otherwise, m)
  }

  function Illegal(env: Env, bs: seq<Choice>, m: Table): nat {
    if bs == [] || env.eval(bs[0].cond, m) == Good(true) then 0
    else (if env.eval(bs[0].cond, m) == Bad then 1 else 0) + Illegal(env, bs[1..], m)
  }

  lemma {:induction false} ElifsFlat(bs: seq<Choice>, otherwise: seq<string>)
    ensures WellFormedArms(Elifs(bs, otherwise)) && FlattenArms(Elifs(bs, otherwise)) == ElifLines(bs, otherwise)
  {
    if bs == [] {
      LeavesFlat(otherwise);
    } else {
      LeavesFlat(bs[0].texts);
      ElifsFlat(bs[1..], otherwise);
    }
  }

  lemma {:induction false} ElifsTree(env: Env, bs: seq<Choice>, otherwise: seq<string>, c: Core)
    ensures WellFormedArms(Elifs(bs, otherwise))
    ensures TreeArms(env, Elifs(bs, otherwise), c) ==
            c.(out := c.out + Substituted(env, Chosen(env, bs, otherwise, c.macros), c.macros),
               errors := c.errors + 2 * Illegal(env, bs, c.macros))
    decreases |bs|
  {
    ElifsFlat(bs, otherwise);
    if bs == [] {
      LeavesTree(env, otherwise, c);
    } else {
      var c' := Report(env, c, Elif(bs[0].cond));
      LeavesTree(env, bs[0].texts, c');
      ElifsTree(env, bs[1..], otherwise, c');
    }
  }

  /** #if, any number of #elif, #else: exactly the lines of the first branch whose condition is
      true are read, each condition before it that cannot be evaluated counting two errors;
      the macros and everything else stay as they were. */
  lemma FirstTrueBranch(env: Env, first: Choice, bs: seq<Choice>, otherwise: seq<string>, c: Core)
    ensures var lines := [If(first.cond)] + Texts(first.texts) + ElifLines(bs, otherwise);
            var all := [first] + bs;
            Flat(env, lines, State(c, 0)).core ==
            c.(out := c.out + Substituted(env, Chosen(env, all, otherwise, c.macros), c.macros),
               errors := c.errors + 2 * Illegal(env, all, c.macros))
  {
    hide Flat;
    var items := Cons(Block(first.cond, Leaves(first.texts), Elifs(bs, otherwise)), Nil);
    var lines := [If(first.cond)] + Texts(first.texts) + ElifLines(bs, otherwise);
    LeavesFlat(first.texts);
    ElifsFlat(bs, otherwise);
    assert Flatten(items) == lines + Flatten(Nil) == lines;
    ScannerAgreesWithTree(env, items, c);
    var c' := Report(env, c, If(first.cond));
    LeavesTree(env, first.texts, c');
    ElifsTree(env, bs, otherwise, c');
    assert ([first] + bs)[1..] == bs;
  }

  /** An #if without #endif is reported when its lines are skipped, and only then. */
  lemma UnclosedIf(env: Env, cond: string, ts: seq<string>, c: Core)
    requires env.eval(cond, c.macros).Good?
    ensures Flat(env, [If(cond)] + Texts(ts), State(c, 0)).core ==
            if env.eval(cond, c.macros) == Good(true) then c.(out := c.out + Substituted(env, ts, c.macros))
            else c.(errors := c.errors + 1)
  {
    var lines := [If(cond)] + Texts(ts);
    assert lines[1..] == Texts(ts) == Texts(ts) + [];
    TextsPass(env, ts, [], State(c, 1));
    SeekTexts(ts);
  }

  /** A taken branch whose remaining arms are not closed is reported, once. */
  lemma UnclosedArms(env: Env, cond: string, ts: seq<string>, other: seq<string>, c: Core)
    requires env.eval(cond, c.macros) == Good(true)
    ensures Flat(env, [If(cond)] + (Texts(ts) + ([Else] + Texts(other))), State(c, 0)).core ==
            c.(out := c.out + Substituted(env, ts, c.macros), errors := c.errors + 1)
  {
    hide Seek, Plain;
    var tail := [Else] + Texts(other);
    var lines := [If(cond)] + (Texts(ts) + tail);
    assert lines[0] == If(cond) && lines[1..] == Texts(ts) + tail;
    TextsPass(env, ts, tail, State(c, 1));
    SeekTexts(other);
    assert tail[0] == Else && tail[1..] == Texts(other);
    assert Skip(tail) == ([], false);
  }

  lemma {:induction false} SeekTexts(ts: seq<string>)
    ensures Seek(Texts(ts), 0) == |ts|
  {
    if ts != [] {
      SeekTexts(ts[1..]);
      assert Texts(ts)[1..] == Texts(ts[1..]);
    }
  }

  // ----- the scanner itself

  /** One taken branch hides the stray #endif after it. */
  lemma StrayEndifUnreported(env: Env, cond: string, c: Core)
    requires env.eval(cond, c.macros) == Good(true)
    ensures Flat(env, [If(cond), Endif, Endif], State(c, 0)).core.errors == c.errors
    ensures Flat(env, [Endif], State(c, 0)).core.errors == c.errors + 1
  {
    var items := Cons(Block(cond, Nil, EndArms), Nil);
    assert Flatten(items) + [Endif] == [If(cond), Endif, Endif] && Flatten(Nil) + [Endif] == [Endif];
    StrayEndifReportedIff(env, items, c);
    StrayEndifReportedIff(env, Nil, c);
  }

  /** One round of the loop that closes a branch, at line `i` of a text. */
  lemma SkipRound(lines: seq<Line>, i: nat)
    requires i < |lines|
    ensures var k := i + 1 + Seek(lines[i + 1..], 0);
            var r := Skip(lines[i..]);
            && (lines[i].Endif? ==> r == (lines[i + 1..], true))
            && (!lines[i].Endif? && k == |lines| ==> r == ([], false))
            && (!lines[i].Endif? && k < |lines| ==> r == Skip(lines[k..]))
  {
    hide Seek;
    var rest := lines[i + 1..];
    assert lines[i..][1..] == rest;
    var k := Seek(rest, 0);
    if k < |rest| {
      assert rest[k..] == lines[i + 1 + k..];
    }
  }

  class Precompiler {
    const env: Env
    var macros: Table
    var out: seq<string>
    var errors: nat
    var warnings: nat

    constructor (env: Env)
      ensures this.env == env && Now() == Core(map[], [], 0, 0)
    {
      this.env := env;
      macros, out, errors, warnings := map[], [], 0, 0;
    }

    function Now(): Core
      reads this
    {
      Core(macros, out, errors, warnings)
    }

    method PlainLine(l: Line)
      requires IsPlain(l)
      modifies this
      ensures Now() == Plain(env, old(Now()), l)
    {
      match l
      case Text(s) => out := out + [env.subst(s, macros)];
      case Define(name, value) =>
        if name in env.predefined || (name in macros && (macros[name].args >= 0 || macros[name].value != value)) {
          errors := errors + 1;
        } else {
          macros := macros[name := Macro(-1, value)];
        }
      case DefineFunction(name, args, value) =>
        if name in env.predefined || name in macros {
          errors := errors + 1;
        } else {
          macros := macros[name := Macro(args, value)];
        }
      case Undef(name) =>
        if name in env.predefined {
          errors := errors + 1;
        } else if name in macros {
          macros := macros - {name};
        } else {
          warnings := warnings + 1;
        }
    }

    /** _SeekToNextCloseDirective: the index of the line found, or the number of lines. */
    static method SeekToNextClose(lines: seq<Line>, start: nat) returns (i: nat)
      requires start <= |lines|
      ensures start <= i <= |lines| && i == start + Seek(lines[start..], 0)
    {
      hide Seek;
      i := start;
      var enclosure := 0;
      while i < |lines|
        invariant start <= i <= |lines| && enclosure >= 0
        invariant start + Seek(lines[start..], 0) == i + Seek(lines[i..], enclosure)
      {
        SeekAt(lines, i, enclosure);
        if enclosure == 0 && IsClose(lines[i]) { return; }
        if lines[i].If? {
          enclosure := enclosure + 1;
        } else if lines[i].Endif? {
          enclosure := enclosure - 1;
        }
        i := i + 1;
      }
      SeekNowhere(lines[i..], enclosure);
    }

    /** _SubsituteFile. */
    method SubstituteFile(lines: seq<Line>)
      modifies this
      ensures Now() == Flat(env, lines, State(old(Now()), 0)).core
    {
      hide Seek, Plain;
      var level := 0;
      var i := 0;
      assert lines[0..] == lines;
      while i < |lines|
        invariant i <= |lines| && level >= 0
        invariant Flat(env, lines[i..], State(Now(), level)) == Flat(env, lines, State(old(Now()), 0))
      {
        assert lines[i..][1..] == lines[i + 1..];
        if IsPlain(lines[i]) {
          PlainLine(lines[i]);
          i := i + 1;
        } else if lines[i].If? {
          i, level := Branches(lines, i, level);
        } else {
          i, level := CloseBranch(lines, i, level);
        }
      }
      assert lines[i..] == [];
    }

    method EvaluateIf(l: Line) returns (go: bool)
      requires l.If? || l.Elif? || l.Else?
      modifies this`errors
      ensures Now() == Report(env, old(Now()), l) && go == Holds(env, old(Now()), l)
    {
      go := l.Else?;
      if !l.Else? {
        match env.eval(l.cond, macros)
        case Bad => errors := errors + 2;
        case Good(b) => go := b;
      }
    }

    /** "iterate all branches" from the #if at line `at`. */
    method Branches(lines: seq<Line>, at: nat, level: nat) returns (i: nat, level': nat)
      requires at < |lines| && lines[at].If?
      modifies this`errors
      ensures at < i <= |lines|
      ensures Branch(env, lines[at..], State(old(Now()), level)) == (lines[i..], State(Now(), level'))
    {
      hide Seek, Branch, Report, Holds;
      i, level' := at, level;
      while true
        invariant at <= i < |lines| && (lines[i].If? || lines[i].Elif? || lines[i].Else?)
        invariant Branch(env, lines[at..], State(old(Now()), level)) == Branch(env, lines[i..], State(Now(), level))
        decreases |lines| - i
      {
        BranchRound(env, lines, i, State(Now(), level));
        var go := EvaluateIf(lines[i]);
        if go {
          i, level' := i + 1, level + 1;
          return;
        }
        var k := SeekToNextClose(lines, i + 1);
        if k == |lines| {
          errors := errors + 1;
          i := k;
          assert lines[i..] == [];
          return;
        }
        if lines[k].Endif? {
          i := k + 1;
          return;
        }
        i := k;
      }
    }

    /** The end of an accepted branch: skip its remaining arms. */
    method CloseBranch(lines: seq<Line>, at: nat, level: nat) returns (i: nat, level': nat)
      requires at < |lines| && IsClose(lines[at])
      modifies this`errors
      ensures at < i <= |lines|
      ensures var r := Skip(lines[at..]);
              r.0 == lines[i..] && State(Now(), level') == Close(State(old(Now()), level), r.1)
    {
      hide Seek, Skip;
      i, level' := at, level;
      var found := true;
      while !lines[i].Endif?
        invariant at <= i < |lines| && found && Now() == old(Now())
        invariant Skip(lines[at..]) == Skip(lines[i..])
        decreases |lines| - i
      {
        var k := SeekToNextClose(lines, i + 1);
        SkipRound(lines, i);
        if k == |lines| {
          found := false;
          errors := errors + 1;
          break;
        }
        i := k;
      }
      SkipRound(lines, i);
      i := if found then i + 1 else |lines|;
      if level > 0 { level' := level + 1; } else { errors := errors + 1; }
    }
  }
}
