/** When moving a failure point loses a match: exactly which tests must not follow which loops. */
module RegexUnsafe {
  import opened Basics
  import opened RegexCode
  import opened RegexAst
  import opened RegexWellFormed
  import opened RegexMeaning
  import opened RegexMachine
  import opened RegexLoops
  import opened RegexCorrect
  import opened RegexFastmap
  import opened RegexEngine
  import opened RegexAnswer

  predicate ReadsOne(a: Atom) {
    !a.Assert? && !a.BackRef?
  }

  function Tests(ops: seq<TestOp>): Regex {
    if ops == [] then Empty else Cat(Leaf(Assert(ops[0])), Tests(ops[1..]))
  }

  /** Any number of characters, at least one if `plus`, then tests of the position: `a*\b` for one. */
  datatype Loop = Loop(plus: bool, a: Atom, ops: seq<TestOp>) {
    function Expr(): Regex {
      Cat(if plus then Plus(Leaf(a)) else Star(Leaf(a)), Tests(ops))
    }

    function Compiled(): Code {
      Program(Expr())
    }

    /** Where the parts of its program are: the failure jump, the character, the star jump, the tests. */
    function Fork(): nat { if plus then 3 else 0 }
    function Body(): nat { Fork() + 3 }
    function Back(): nat { Body() + AtomLen(a) }
    function Exit(): nat { Back() + 3 }

    predicate Ok() {
      ReadsOne(a) && Small(Expr())
    }
  }

  /** The expression matches, but matching answers that it does not. */
  ghost predicate Missed(r: Regex, txt: Text, p: nat)
    requires p <= |txt|
  {
    MatchesAt(r, txt, p) && Answers(r, txt, p, NoMatch)
  }

  ghost predicate CanMiss(r: Regex) {
    exists txt: Text, p: nat | p <= |txt| :: Missed(r, txt, p)
  }

  // ---- The program of such an expression ---------------------------------------------------------------

  lemma {:induction false} TestsShape(ops: seq<TestOp>, x: int)
    ensures Supported(Tests(ops)) && Len(Tests(ops)) == |ops|
    ensures forall y :: y in Starts(Tests(ops), x) <==> x <= y < x + |ops|
    decreases |ops|
  {
    hide Starts;
    TestsStarts(ops, x);
    if ops != [] {
      TestsShape(ops[1..], x + 1);
    }
  }

  lemma {:induction false} TestsStarts(ops: seq<TestOp>, x: int)
    ensures ops == [] ==> Starts(Tests(ops), x) == {}
    ensures ops != [] ==> Starts(Tests(ops), x) == {x} + Starts(Tests(ops[1..]), x + 1)
  {
    if ops != [] { assert Starts(Leaf(Assert(ops[0])), x) == {x}; }
  }

  lemma {:induction false} TestsPlaced(code: Code, ops: seq<TestOp>, x: int)
    requires Placed(code, Tests(ops), x) && |code| < 0x8000
    ensures forall y :: x <= y < x + |ops| ==> Decode(code, y) == Test(ops[y - x]) && Next(code, y) == y + 1
    decreases |ops|
  {
    hide Decode, Next, Emit, Holds;
    if ops != [] {
      TestsShape(ops, x);
      Unfold(code, Tests(ops), x);
      Unfold(code, Leaf(Assert(ops[0])), x);
      TestsPlaced(code, ops[1..], x + 1);
      forall y | x <= y < x + |ops| ensures Decode(code, y) == Test(ops[y - x]) && Next(code, y) == y + 1 {
        if y > x { assert ops[1..][y - (x + 1)] == ops[y - x]; }
      }
    }
  }

  /** Its instructions, but for the one that closes the loop. */
  ghost predicate Around(now: Code, w: Loop) {
    && (w.plus ==> Decode(now, 0) == DummyJump(6))
    && Decode(now, w.Fork()) == FailJump(w.Exit())
    && Decode(now, w.Body()).Read? && Next(now, w.Body()) == w.Back()
    && (forall c: Byte :: CharOk(now, w.Body(), c) <==> AtomReads(w.a, c))
    && (forall y :: w.Exit() <= y < w.Exit() + |w.ops| ==>
          Decode(now, y) == Test(w.ops[y - w.Exit()]) && Next(now, y) == y + 1)
    && Decode(now, w.Exit() + |w.ops|).End?
  }

  predicate IsBound(w: Loop, y: int) {
    (w.plus && y == 0) || y == w.Fork() || y == w.Body() || y == w.Back() || w.Exit() <= y <= w.Exit() + |w.ops|
  }

  lemma {:induction false} LoopSize(w: Loop)
    requires ReadsOne(w.a)
    ensures Supported(w.Expr()) && Len(w.Expr()) == w.Exit() + |w.ops|
  {
    TestsShape(w.ops, 0);
    assert Supported(Leaf(w.a)) && Len(Leaf(w.a)) == AtomLen(w.a);
  }

  /** The layout of the loop alone. */
  lemma {:induction false} LoopFront(code: Code, w: Loop)
    requires ReadsOne(w.a) && |code| < 0x8000
    requires Placed(code, if w.plus then Plus(Leaf(w.a)) else Star(Leaf(w.a)), 0)
    ensures (w.plus ==> Decode(code, 0) == DummyJump(6)) && Decode(code, w.Fork()) == FailJump(w.Exit())
    ensures Decode(code, w.Back()) == StarJump(w.Fork()) && Placed(code, Leaf(w.a), w.Body())
  {
    hide Decode, Next, Emit, Holds;
    var x := Leaf(w.a);
    assert Supported(x) && Len(x) == AtomLen(w.a);
    if w.plus { Unfold(code, Plus(x), 0); } else { Unfold(code, Star(x), 0); }
  }

  lemma {:induction false} LoopStarts(w: Loop)
    requires w.Ok()
    ensures forall y :: y in Boundaries(w.Expr()) <==> IsBound(w, y)
  {
    hide Starts, Len, Tests, Supported, Small;
    LoopSize(w);
    TestsShape(w.ops, w.Exit());
    FrontStarts(w);
  }

  lemma {:induction false} FrontStarts(w: Loop)
    requires w.Ok()
    ensures Starts(w.Expr(), 0)
      == (if w.plus then {0} else {}) + {w.Fork(), w.Body(), w.Back()} + Starts(Tests(w.ops), w.Exit())
  {
    hide Starts, Tests, AtomLen;
    var y := if w.plus then Plus(Leaf(w.a)) else Star(Leaf(w.a));
    if w.plus { PlusStarts(w.a); } else { StarStarts(w.a); }
    assert Len(y) == w.Exit() by { assert Len(Leaf(w.a)) == AtomLen(w.a); }
    CatStarts(y, Tests(w.ops));
  }

  lemma {:induction false} CatStarts(x: Regex, y: Regex)
    ensures Starts(Cat(x, y), 0) == Starts(x, 0) + Starts(y, Len(x))
  {
  }

  lemma {:induction false} StarStarts(a: Atom)
    ensures Starts(Star(Leaf(a)), 0) == {0, 3, 3 + AtomLen(a)}
  {
    assert Starts(Leaf(a), 3) == {3} && Len(Leaf(a)) == AtomLen(a);
  }

  lemma {:induction false} PlusStarts(a: Atom)
    ensures Starts(Plus(Leaf(a)), 0) == {0, 3, 6, 6 + AtomLen(a)}
  {
    assert Starts(Leaf(a), 6) == {6} && Len(Leaf(a)) == AtomLen(a);
  }

  lemma {:induction false} LoopCode(w: Loop)
    requires w.Ok()
    ensures var code := w.Compiled();
      && Supported(w.Expr()) && |code| == w.Exit() + |w.ops| + 1
      && (forall y :: y in Boundaries(w.Expr()) <==> IsBound(w, y))
      && WellFormed(code, Boundaries(w.Expr()))
      && Around(code, w) && Decode(code, w.Back()) == StarJump(w.Fork()) && code[w.Body()] == EmitAtom(w.a)[0]
  {
    hide Decode, Next, CharOk, AtomReads, EmitAtom, WellFormed, Emit, Holds, Boundaries, Tests;
    var code, y := w.Compiled(), if w.plus then Plus(Leaf(w.a)) else Star(Leaf(w.a));
    LoopSize(w);
    LoopStarts(w);
    ProgramPlaced(w.Expr());
    ProgramWellFormed(w.Expr());
    Unfold(code, w.Expr(), 0);
    assert Len(y) == w.Exit();
    LoopFront(code, w);
    Unfold(code, Leaf(w.a), w.Body());
    TestsPlaced(code, w.ops, w.Exit());
    FirstByteOf(code, w.a, w.Body());
  }

  lemma {:induction false} FirstByteOf(code: Code, a: Atom, b: int)
    requires Placed(code, Leaf(a), b)
    ensures 0 <= b < |code| && code[b] == EmitAtom(a)[0]
  {
    hide EmitAtom;
    assert code[b..b + AtomLen(a)][0] == code[b];
  }

  lemma {:induction false} VariantHere(w: Loop, now: Code, y: int)
    requires w.Ok() && Variant(w.Compiled(), Boundaries(w.Expr()), now) && IsBound(w, y)
    ensures SameAt(w.Compiled(), now, y)
  {
    hide Starts, Program, Boundaries, Variant, SameAt;
    LoopStarts(w);
    VariantAt(w.Compiled(), Boundaries(w.Expr()), now, y);
  }

  lemma {:induction false} VariantTests(w: Loop, now: Code)
    requires w.Ok() && Variant(w.Compiled(), Boundaries(w.Expr()), now) && Around(w.Compiled(), w)
    ensures forall y :: w.Exit() <= y < w.Exit() + |w.ops| ==>
      Decode(now, y) == Test(w.ops[y - w.Exit()]) && Next(now, y) == y + 1
    ensures Decode(now, w.Exit() + |w.ops|).End?
  {
    hide Decode, Next, CharOk, AtomReads, Program, Boundaries, Variant, CanUpdate;
    VariantHere(w, now, w.Exit() + |w.ops|);
    forall y | w.Exit() <= y < w.Exit() + |w.ops|
      ensures Decode(now, y) == Test(w.ops[y - w.Exit()]) && Next(now, y) == y + 1
    {
      VariantHere(w, now, y);
    }
  }

  lemma {:induction false} VariantAround(w: Loop, now: Code)
    requires w.Ok() && Variant(w.Compiled(), Boundaries(w.Expr()), now)
    ensures Around(now, w)
    ensures var i := Decode(now, w.Back()); i == StarJump(w.Fork()) || i == Jump(w.Fork()) || i == UpdateJump(w.Body())
  {
    hide Decode, Next, CharOk, AtomReads, Program, Boundaries, Variant, CanUpdate, WellFormed, Tests;
    LoopCode(w);
    if w.plus { VariantHere(w, now, 0); }
    VariantHere(w, now, w.Fork());
    VariantHere(w, now, w.Body());
    VariantHere(w, now, w.Back());
    VariantTests(w, now);
  }

  // ---- When the loop is rewritten -------------------------------------------------------------------------

  predicate Rewritable(a: Atom) {
    a.Char? || a.AnyChar? || a.Class?
  }

  /** The loop is rewritten: the newline it may read does not come before an end of line that is tested. */
  predicate Updates(w: Loop) {
    Rewritable(w.a) && !(CEOL in w.ops && AtomReads(w.a, NEWLINE))
  }

  /** An end of line among the tests is reached by passing the tests before it. */
  lemma {:induction false} ReachEol(w: Loop, i: nat)
    requires w.Ok() && i <= |w.ops| && exists j :: i <= j < |w.ops| && w.ops[j] == CEOL
    ensures FirstChar(w.Compiled(), w.Exit() + i, NEWLINE)
    decreases |w.ops| - i
  {
    hide Decode, Next, CharOk, Program, FirstChar, WellFormed, Boundaries, EpsStep;
    var code, x := w.Compiled(), w.Exit() + i;
    LoopCode(w);
    assert Decode(code, x) == Test(w.ops[x - w.Exit()]);
    if w.ops[i] == CEOL {
      FirstCharHere(code, x, NEWLINE);
    } else {
      ReachEol(w, i + 1);
      TestStep(code, x);
      FirstCharBack(code, x, x + 1, NEWLINE);
    }
  }

  lemma {:induction false} TestStep(code: Code, x: int)
    requires Decode(code, x).Test? && Decode(code, x).op != CEOL
    ensures EpsStep(code, x, Next(code, x))
  {
    hide Decode, Next;
  }

  /** After the loop no character but the newline before an end of line can come first. */
  lemma {:induction false} FirstAfter(w: Loop, c: Byte)
    requires w.Ok()
    ensures FirstChar(w.Compiled(), w.Exit(), c) <==> c == NEWLINE && CEOL in w.ops
  {
    hide Decode, Next, CharOk, AtomReads, Program, EpsReachIn, WellFormed, Boundaries;
    var code, x := w.Compiled(), w.Exit();
    LoopCode(w);
    if c == NEWLINE && CEOL in w.ops { ReachEol(w, 0); }
    if FirstChar(code, x, c) {
      var seen := (set y | y in Boundaries(w.Expr()) && y >= x);
      TestsExplored(w, seen);
      var z :| EpsReach(code, x, z) && Contributes(code, z, c);
      var n: nat :| EpsReachIn(code, x, z, n);
      ClosedReach(code, seen, x, z, n);
      assert z < x + |w.ops| ==> Decode(code, z) == Test(w.ops[z - x]);
    }
  }

  /** The analysis does not leave the tests. */
  lemma {:induction false} TestsExplored(w: Loop, seen: set<int>)
    requires w.Ok() && forall y :: y in seen <==> w.Exit() <= y <= w.Exit() + |w.ops|
    ensures Explored(w.Compiled(), seen, {}, seen)
  {
    hide Decode, Next, CharOk, AtomReads, Program, WellFormed, Boundaries, IsBound;
    LoopCode(w);
    forall y <- seen ensures Onward(w.Compiled(), y, seen) {
      if y < w.Exit() + |w.ops| { assert Decode(w.Compiled(), y) == Test(w.ops[y - w.Exit()]); }
    }
  }

  lemma {:induction false} WhenUpdated(w: Loop)
    requires w.Ok()
    ensures CanUpdate(w.Compiled(), w.Back()) <==> Updates(w)
  {
    hide Decode, Next, CharOk, AtomReads, Program, FirstChar, WellFormed, Boundaries;
    var code, q, x := w.Compiled(), w.Back(), w.Exit();
    LoopCode(w);
    assert Reader(code, w.Body()) == if Rewritable(w.a) then w.Body() else -1;
    assert StraightTo(code, q, q);
    forall c: Byte ensures FirstChar(code, x, c) <==> c == NEWLINE && CEOL in w.ops { FirstAfter(w, c); }
  }

  lemma {:induction false} NoUpdateSafe(w: Loop)
    requires w.Ok() && !CanUpdate(w.Compiled(), w.Back())
    ensures Safe(w.Expr())
  {
    hide Decode, Next, CharOk, AtomReads, Program, FirstChar, WellFormed, SafeExit, Boundaries;
    LoopCode(w);
    forall q <- Boundaries(w.Expr()) ensures !CanUpdate(w.Compiled(), q) {
      assert IsBound(w, q);
      if w.Exit() <= q < w.Exit() + |w.ops| { assert Decode(w.Compiled(), q) == Test(w.ops[q - w.Exit()]); }
    }
  }

  // ---- What matching answers ----------------------------------------------------------------------------------

  ghost predicate AllOk(ops: seq<TestOp>, txt: Text, i: nat)
    requires i <= |txt|
  {
    forall op <- ops :: TestOk(op, txt, i)
  }

  /** How far the characters from i on are all read by a. */
  function Stop(a: Atom, txt: Text, i: nat): (e: nat)
    requires i <= |txt|
    ensures i <= e <= |txt|
    ensures forall k :: i <= k < e ==> AtomReads(a, txt[k])
    ensures e < |txt| ==> !AtomReads(a, txt[e])
    decreases |txt| - i
  {
    if i < |txt| && AtomReads(a, txt[i]) then Stop(a, txt, i + 1) else i
  }

  /** The rewritten loop goes as far as it can, and the tests are made there and nowhere else. */
  ghost function Verdict(w: Loop, txt: Text, i: nat): Outcome
    requires i <= |txt|
  {
    var e := Stop(w.a, txt, i);
    if AllOk(w.ops, txt, e) then Matched(e) else NoMatch
  }

  lemma {:induction false} RunsOn(s: State, s': State, txt: Text, n: nat, o: Outcome, later: Code)
    requires s.at <= |txt| && s'.at <= |txt|
    requires Step(true, s, txt) == Running(s') && RunsTo(true, s', txt, n, o, later)
    ensures RunsTo(true, s, txt, n + 1, o, later)
  {
    hide Step;
  }

  lemma {:induction false} Ends(s: State, txt: Text, o: Outcome)
    requires s.at <= |txt| && Step(true, s, txt) == Halted(o, s.code)
    ensures RunsTo(true, s, txt, 1, o, s.code)
  {
    hide Step;
  }

  lemma {:induction false} TestsRun(w: Loop, now: Code, txt: Text, i: nat, j: nat) returns (n: nat)
    requires i <= |txt| && Around(now, w) && j <= |w.ops|
    ensures RunsTo(true, State(now, w.Exit() + j, i, []), txt, n,
                   if AllOk(w.ops[j..], txt, i) then Matched(i) else NoMatch, now)
    decreases |w.ops| - j
  {
    hide Decode, Next, CharOk, AtomReads, TestOk, RunsTo;
    var x := w.Exit() + j;
    var s := State(now, x, i, []);
    if j == |w.ops| {
      Ends(s, txt, Matched(i));
      n := 1;
    } else {
      assert Decode(now, x) == Test(w.ops[x - w.Exit()]);
      var op, rest := w.ops[j], w.ops[j + 1..];
      assert w.ops[j..] == [op] + rest;
      if TestOk(op, txt, i) {
        n := TestsRun(w, now, txt, i, j + 1);
        RunsOn(s, State(now, x + 1, i, []), txt, n, if AllOk(rest, txt, i) then Matched(i) else NoMatch, now);
        n := n + 1;
      } else {
        Ends(s, txt, NoMatch);
        n := 1;
      }
    }
  }

  lemma {:induction false} ExitRun(w: Loop, now: Code, txt: Text, i: nat) returns (n: nat)
    requires i <= |txt| && Around(now, w) && Stop(w.a, txt, i) == i
    ensures RunsTo(true, State(now, w.Body(), i, [Live(i, w.Exit())]), txt, n, Verdict(w, txt, i), now)
  {
    hide Decode, Next, CharOk, AtomReads, TestOk, RunsTo, AllOk;
    var s, s1 := State(now, w.Body(), i, [Live(i, w.Exit())]), State(now, w.Exit(), i, []);
    assert s.stack[..0] == [] && w.ops[0..] == w.ops;
    assert Step(true, s, txt) == Running(s1);
    n := TestsRun(w, now, txt, i, 0);
    RunsOn(s, s1, txt, n, Verdict(w, txt, i), now);
    n := n + 1;
  }

  lemma {:induction false} LoopRun(w: Loop, now: Code, txt: Text, i: nat) returns (n: nat, later: Code)
    requires w.Ok() && i <= |txt| && Variant(w.Compiled(), Boundaries(w.Expr()), now)
    requires CanUpdate(w.Compiled(), w.Back()) && !Decode(now, w.Back()).Jump?
    ensures RunsTo(true, State(now, w.Body(), i, [Live(i, w.Exit())]), txt, n, Verdict(w, txt, i), later)
    decreases |txt| - i, 0
  {
    hide Decode, Next, CharOk, AtomReads, TestOk, RunsTo, CanUpdate, Variant, Program, Boundaries, WellFormed, Patch,
      AllOk;
    VariantAround(w, now);
    if Stop(w.a, txt, i) == i {
      n := ExitRun(w, now, txt, i);
      later := now;
    } else {
      var s, s1 := State(now, w.Body(), i, [Live(i, w.Exit())]), State(now, w.Back(), i + 1, [Live(i, w.Exit())]);
      assert Step(true, s, txt) == Running(s1);
      n, later := AgainRun(w, s1, txt);
      RunsOn(s, s1, txt, n, Verdict(w, txt, i), later);
      n := n + 1;
    }
  }

  /** Back to the head of the loop, with the failure point moved. */
  lemma {:induction false} AgainRun(w: Loop, s: State, txt: Text) returns (n: nat, later: Code)
    requires w.Ok() && s.at <= |txt| && Variant(w.Compiled(), Boundaries(w.Expr()), s.code)
    requires CanUpdate(w.Compiled(), w.Back()) && !Decode(s.code, w.Back()).Jump?
    requires s.pc == w.Back() && |s.stack| == 1 && s.stack[0].resume == w.Exit()
    ensures RunsTo(true, s, txt, n, Verdict(w, txt, s.at), later)
    decreases |txt| - s.at, 1
  {
    hide Decode, Next, CharOk, AtomReads, TestOk, RunsTo, CanUpdate, Variant, Program, Boundaries, WellFormed, Patch,
      AllOk;
    var turned := Turned(w, s.code);
    var s1 := State(turned, w.Body(), s.at, [Live(s.at, w.Exit())]);
    assert s.stack[0 := Live(s.at, w.Exit())] == s1.stack;
    assert Step(true, s, txt) == Running(s1);
    n, later := LoopRun(w, turned, txt, s.at);
    RunsOn(s, s1, txt, n, Verdict(w, txt, s.at), later);
    n := n + 1;
  }

  /** The program after the loop has been gone around. */
  lemma {:induction false} Turned(w: Loop, now: Code) returns (turned: Code)
    requires w.Ok() && Variant(w.Compiled(), Boundaries(w.Expr()), now)
    requires CanUpdate(w.Compiled(), w.Back()) && !Decode(now, w.Back()).Jump?
    ensures var q := w.Back();
      && Variant(w.Compiled(), Boundaries(w.Expr()), turned) && Decode(turned, q) == UpdateJump(w.Body())
      && (Decode(now, q) == UpdateJump(w.Body()) || Decode(now, q) == StarJump(w.Fork()))
      && if Decode(now, q).StarJump?
         then CanUpdate(now, q) && q + 3 <= |now| && turned == Patch(now, q, CUPDATE_FAILURE_JUMP, w.Fork() - q)
         else turned == now
  {
    hide Decode, Next, CharOk, AtomReads, CanUpdate, Variant, Program, Boundaries, WellFormed, Patch;
    var code, bounds, q := w.Compiled(), Boundaries(w.Expr()), w.Back();
    LoopCode(w);
    VariantAround(w, now);
    turned := now;
    if Decode(now, q).StarJump? {
      SameTest(code, bounds, now, q);
      MakeUpdateJump(code, bounds, now, q);
      turned := Patch(now, q, CUPDATE_FAILURE_JUMP, w.Fork() - q);
    }
  }

  /** Where the loop need not be entered, or can be, what is answered is the verdict. */
  predicate Enters(w: Loop, txt: Text, p: nat)
    requires p <= |txt|
  {
    w.plus ==> p < |txt| && AtomReads(w.a, txt[p])
  }

  lemma {:induction false} LoopAnswer(w: Loop, txt: Text, p: nat)
    requires w.Ok() && p <= |txt| && CanUpdate(w.Compiled(), w.Back())
    ensures Answers(w.Expr(), txt, p, if Enters(w, txt, p) then Verdict(w, txt, p) else NoMatch)
  {
    hide Decode, Next, CharOk, AtomReads, TestOk, RunsTo, CanUpdate, Variant, Program, Boundaries, WellFormed, AllOk;
    var code := w.Compiled();
    LoopCode(w);
    Fresh(code, Boundaries(w.Expr()));
    var s := Initial(code, p);
    if w.plus {
      var s1 := State(code, 6, p, [Dummy(w.Exit())]);
      assert Step(true, s, txt) == Running(s1) by { assert s.stack + [Dummy(w.Exit())] == s1.stack; }
      var n, later := PlusRun(w, s1, txt);
      RunsOn(s, s1, txt, n, if Enters(w, txt, p) then Verdict(w, txt, p) else NoMatch, later);
    } else {
      var s1 := State(code, w.Body(), p, [Live(p, w.Exit())]);
      assert Step(true, s, txt) == Running(s1) by { assert s.stack + [Live(p, w.Exit())] == s1.stack; }
      var n, later := LoopRun(w, code, txt, p);
      RunsOn(s, s1, txt, n, Verdict(w, txt, p), later);
    }
  }

  /** The first turn of a loop that must be gone around once. */
  lemma {:induction false} PlusRun(w: Loop, s: State, txt: Text) returns (n: nat, later: Code)
    requires w.Ok() && w.plus && s.code == w.Compiled() && CanUpdate(s.code, w.Back()) && s.at <= |txt|
    requires s.pc == w.Body() && s.stack == [Dummy(w.Exit())]
    ensures RunsTo(true, s, txt, n, if Enters(w, txt, s.at) then Verdict(w, txt, s.at) else NoMatch, later)
  {
    hide Decode, Next, CharOk, AtomReads, TestOk, RunsTo, CanUpdate, Variant, Program, Boundaries, WellFormed, AllOk;
    var code := s.code;
    LoopCode(w);
    Fresh(code, Boundaries(w.Expr()));
    if Enters(w, txt, s.at) {
      var s1 := s.(pc := w.Back(), at := s.at + 1);
      assert Step(true, s, txt) == Running(s1);
      n, later := AgainRun(w, s1, txt);
      RunsOn(s, s1, txt, n, Verdict(w, txt, s.at), later);
      n := n + 1;
    } else {
      assert s.stack[..|s.stack| - 1] == [];
      assert Backtrack(code, s.stack) == Halted(NoMatch, code);
      Ends(s, txt, NoMatch);
      n, later := 1, code;
    }
  }

  // ---- What the expression matches ------------------------------------------------------------------------------

  lemma {:induction false} RepeatsWithin(a: Atom, txt: Text, i: nat, k: nat, n: nat)
    requires ReadsOne(a) && i <= |txt| && k <= |txt| && Repeats(Leaf(a), txt, i, k, n)
    ensures k == i + n && k <= Stop(a, txt, i)
    decreases n
  {
    hide AtomReads;
    if n > 0 {
      var m: nat :| m <= |txt| && Matches(Leaf(a), txt, i, m) && Repeats(Leaf(a), txt, m, k, n - 1);
      RepeatsWithin(a, txt, m, k, n - 1);
    }
  }

  lemma {:induction false} WithinRepeats(a: Atom, txt: Text, i: nat, k: nat)
    requires ReadsOne(a) && i <= |txt| && i <= k <= Stop(a, txt, i)
    ensures Repeats(Leaf(a), txt, i, k, k - i)
    decreases k - i
  {
    hide AtomReads;
    if i < k {
      WithinRepeats(a, txt, i + 1, k);
      assert Matches(Leaf(a), txt, i, i + 1);
    }
  }

  lemma {:induction false} TestsMatch(ops: seq<TestOp>, txt: Text, i: nat, j: nat)
    requires i <= |txt| && j <= |txt|
    ensures Matches(Tests(ops), txt, i, j) <==> i == j && AllOk(ops, txt, i)
    decreases |ops|
  {
    hide TestOk;
    if ops != [] {
      var x, rest := Leaf(Assert(ops[0])), Tests(ops[1..]);
      TestsMatch(ops[1..], txt, i, j);
      assert ops == [ops[0]] + ops[1..];
      if Matches(Cat(x, rest), txt, i, j) { CatHere(x, rest, txt, i, j); }
      if i == j && AllOk(ops, txt, i) { assert Matches(x, txt, i, i) && Matches(rest, txt, i, j); }
    }
  }

  lemma {:induction false} CatHere(x: Regex, y: Regex, txt: Text, i: nat, j: nat)
    requires i <= |txt| && j <= |txt| && x.Leaf? && x.a.Assert? && Matches(Cat(x, y), txt, i, j)
    ensures Matches(x, txt, i, i) && Matches(y, txt, i, j)
  {
    var m: nat :| m <= |txt| && Matches(x, txt, i, m) && Matches(y, txt, m, j);
  }

  lemma {:induction false} PlusRepeats(x: Regex, txt: Text, i: nat, j: nat) returns (n: nat)
    requires i <= |txt| && j <= |txt| && Matches(Plus(x), txt, i, j)
    ensures n > 0 && Repeats(x, txt, i, j, n)
  {
    n :| n > 0 && Repeats(x, txt, i, j, n);
  }

  lemma {:induction false} CatParts(x: Regex, y: Regex, txt: Text, i: nat, j: nat) returns (m: nat)
    requires i <= |txt| && j <= |txt| && Matches(Cat(x, y), txt, i, j)
    ensures m <= |txt| && Matches(x, txt, i, m) && Matches(y, txt, m, j)
  {
    m :| m <= |txt| && Matches(x, txt, i, m) && Matches(y, txt, m, j);
  }

  /** The loop alone can stop anywhere on its way, but not where it began if it must be gone around. */
  lemma {:induction false} LoopMatch(w: Loop, txt: Text, p: nat, k: nat)
    requires ReadsOne(w.a) && p <= |txt| && k <= |txt|
    ensures Matches(if w.plus then Plus(Leaf(w.a)) else Star(Leaf(w.a)), txt, p, k)
      <==> p <= k <= Stop(w.a, txt, p) && (w.plus ==> p < k)
  {
    hide AtomReads, Repeats, Stop;
    var x := Leaf(w.a);
    if w.plus {
      if Matches(Plus(x), txt, p, k) {
        var n := PlusRepeats(x, txt, p, k);
        RepeatsWithin(w.a, txt, p, k, n);
      }
    } else if Matches(Star(x), txt, p, k) {
      var n := StarRepeats(x, txt, p, k);
      RepeatsWithin(w.a, txt, p, k, n);
    }
    if p <= k <= Stop(w.a, txt, p) { WithinRepeats(w.a, txt, p, k); }
  }

  lemma {:induction false} CatMatch(x: Regex, ops: seq<TestOp>, txt: Text, p: nat, k: nat)
    requires p <= |txt| && k <= |txt|
    ensures Matches(Cat(x, Tests(ops)), txt, p, k) <==> Matches(x, txt, p, k) && AllOk(ops, txt, k)
  {
    hide Tests, AllOk;
    if Matches(Cat(x, Tests(ops)), txt, p, k) {
      var m := CatParts(x, Tests(ops), txt, p, k);
      TestsMatch(ops, txt, m, k);
    }
    TestsMatch(ops, txt, k, k);
  }

  /** The expression matches if the tests hold anywhere on the way the loop can go. */
  lemma {:induction false} MatchesWithin(w: Loop, txt: Text, p: nat)
    requires ReadsOne(w.a) && p <= |txt|
    ensures MatchesAt(w.Expr(), txt, p) <==>
      exists k: nat | p <= k <= Stop(w.a, txt, p) :: (w.plus ==> p < k) && AllOk(w.ops, txt, k)
  {
    hide AtomReads, Stop, AllOk, Matches, Tests;
    forall k: nat | k <= |txt|
      ensures Matches(w.Expr(), txt, p, k) <==>
        p <= k <= Stop(w.a, txt, p) && (w.plus ==> p < k) && AllOk(w.ops, txt, k)
    {
      LoopMatch(w, txt, p, k);
      CatMatch(if w.plus then Plus(Leaf(w.a)) else Star(Leaf(w.a)), w.ops, txt, p, k);
    }
  }

  // ---- When a match is lost --------------------------------------------------------------------------------------

  /** The tests hold somewhere on the way the loop can go, but not at its end. */
  ghost predicate Lost(w: Loop, txt: Text, p: nat)
    requires p <= |txt|
  {
    !AllOk(w.ops, txt, Stop(w.a, txt, p))
    && exists k: nat | p <= k <= Stop(w.a, txt, p) :: (w.plus ==> p < k) && AllOk(w.ops, txt, k)
  }

  lemma {:induction false} MissedIsLost(w: Loop, txt: Text, p: nat)
    requires w.Ok() && p <= |txt|
    ensures Missed(w.Expr(), txt, p) <==> CanUpdate(w.Compiled(), w.Back()) && Lost(w, txt, p)
  {
    hide AtomReads, TestOk, Program, CanUpdate, Answers, MatchesAt, Supported, Boundaries, Matches, Decode, Next, Safe,
      WellFormed, AllOk, Tests;
    LoopCode(w);
    MatchesWithin(w, txt, p);
    var o := AnswerMeaning(w.Expr(), txt, p);
    if CanUpdate(w.Compiled(), w.Back()) { LoopAnswer(w, txt, p); } else { NoUpdateSafe(w); }
  }

  // ---- What tests look at ---------------------------------------------------------------------------------------

  /** The character before, or after, position i. */
  function Before(txt: Text, i: nat): Option<Byte>
    requires i <= |txt|
  {
    if i == 0 then None else Some(txt[i - 1])
  }

  function After(txt: Text, i: nat): Option<Byte>
    requires i <= |txt|
  {
    if i == |txt| then None else Some(txt[i])
  }

  /** Does the test hold between these two? */
  predicate Between(op: TestOp, b: Option<Byte>, c: Option<Byte>) {
    if op == CBOL then b == None || b == Some(NEWLINE)
    else if op == CEOL then c == None || c == Some(NEWLINE)
    else if op == CBEGBUF then b == None
    else if op == CENDBUF then c == None
    else if op == CWORDBEG then c.Some? && IsWord(c.value) && (b.Some? ==> !IsWord(b.value))
    else if op == CWORDEND then b.Some? && IsWord(b.value) && (c.Some? ==> !IsWord(c.value))
    else if op == CWORDBOUND then b.None? || c.None? || IsWord(b.value) != IsWord(c.value)
    else b.Some? && c.Some? && IsWord(b.value) == IsWord(c.value)
  }

  predicate AllBetween(ops: seq<TestOp>, b: Option<Byte>, c: Option<Byte>) {
    forall op <- ops :: Between(op, b, c)
  }

  lemma {:induction false} OkBetween(ops: seq<TestOp>, txt: Text, i: nat)
    requires i <= |txt|
    ensures AllOk(ops, txt, i) <==> AllBetween(ops, Before(txt, i), After(txt, i))
  {
    hide IsWord;
    forall op <- ops ensures TestOk(op, txt, i) <==> Between(op, Before(txt, i), After(txt, i)) { assert IsTestOp(op); }
  }

  /** What the loop reads takes it from where all tests hold to where some do not: they hold between b and
      c, which it reads, and not between d, which it reads, and what it does not read, or the end of the text.
      A loop that must be gone around has read b as well. */
  predicate Takes(w: Loop, b: Option<Byte>, c: Byte, d: Byte, e: Option<Byte>) {
    && (w.plus ==> b.Some? && AtomReads(w.a, b.value))
    && AtomReads(w.a, c) && AtomReads(w.a, d) && (e.Some? ==> !AtomReads(w.a, e.value))
    && AllBetween(w.ops, b, Some(c)) && !AllBetween(w.ops, Some(d), e)
  }

  ghost predicate Loses(w: Loop) {
    Updates(w) && exists b: Option<Byte>, c: Byte, d: Byte, e: Option<Byte> :: Takes(w, b, c, d, e)
  }

  lemma {:induction false} LostMeans(w: Loop, txt: Text, p: nat)
    requires Updates(w) && p <= |txt| && Lost(w, txt, p)
    ensures Loses(w)
  {
    hide AtomReads, AllBetween, AllOk;
    var e := Stop(w.a, txt, p);
    var k: nat :| p <= k <= e && (w.plus ==> p < k) && AllOk(w.ops, txt, k);
    OkBetween(w.ops, txt, k);
    OkBetween(w.ops, txt, e);
    assert k < e && AtomReads(w.a, txt[k]) && AtomReads(w.a, txt[e - 1]);
    assert Takes(w, Before(txt, k), txt[k], txt[e - 1], After(txt, e));
  }

  lemma {:induction false} LosingText(w: Loop) returns (txt: Text, p: nat)
    requires Loses(w)
    ensures p <= |txt| && Lost(w, txt, p)
  {
    hide AtomReads, AllBetween, AllOk, Stop;
    var b: Option<Byte>, c: Byte, d: Byte, e: Option<Byte> :| Takes(w, b, c, d, e);
    var front: Text := if b.Some? then [b.value] else [];
    var k := |front|;
    txt, p := front + [c, d] + (if e.Some? then [e.value] else []), if w.plus then 0 else k;
    assert Before(txt, k) == b && After(txt, k) == Some(c);
    assert Before(txt, k + 2) == Some(d) && After(txt, k + 2) == e;
    StopsAt(w.a, txt, p, k + 2);
    OkBetween(w.ops, txt, k);
    OkBetween(w.ops, txt, k + 2);
  }

  lemma {:induction false} StopsAt(a: Atom, txt: Text, i: nat, e: nat)
    requires i <= e <= |txt| && forall k :: i <= k < e ==> AtomReads(a, txt[k])
    requires e < |txt| ==> !AtomReads(a, txt[e])
    ensures Stop(a, txt, i) == e
  {
    hide AtomReads;
  }

  /** A loop over single characters followed by tests of the position: on some text the matcher misses a
      match, having dropped the failure point that would have led to it, if and only if the loop is rewritten
      and what it reads can take it from where all the tests hold to where some do not. */
  lemma {:induction false} WhenMissed(w: Loop)
    requires w.Ok()
    ensures CanMiss(w.Expr()) <==> Loses(w)
  {
    hide AtomReads, Stop, Program, CanUpdate, Missed, Lost, AllBetween, Takes, Updates, Tests;
    WhenUpdated(w);
    if CanMiss(w.Expr()) {
      var txt: Text, p: nat :| p <= |txt| && Missed(w.Expr(), txt, p);
      MissedIsLost(w, txt, p);
      LostMeans(w, txt, p);
    }
    if Loses(w) {
      var txt, p := LosingText(w);
      MissedIsLost(w, txt, p);
    }
  }

  // ---- A single test ---------------------------------------------------------------------------------------------

  /** What a loop must not read that is followed by this test. */
  ghost predicate LosesTest(a: Atom, op: TestOp) {
    Rewritable(a)
    && if op == CBOL then exists c: Byte :: AtomReads(a, c) && c != NEWLINE
       else if op == CBEGBUF || op == CNOTWORDBOUND then exists c: Byte :: AtomReads(a, c)
       else if op == CWORDBEG then exists c: Byte :: AtomReads(a, c) && IsWord(c)
       else if op == CWORDEND then exists c: Byte :: AtomReads(a, c) && !IsWord(c)
       else if op == CWORDBOUND then
         exists c: Byte, d: Byte :: AtomReads(a, c) && !AtomReads(a, d) && IsWord(c) == IsWord(d)
       else false
  }

  lemma {:induction false} OneTest(plus: bool, a: Atom, op: TestOp)
    requires ReadsOne(a)
    ensures Loop(plus, a, [op]).Ok()
    ensures forall b: Option<Byte>, c: Option<Byte> :: AllBetween([op], b, c) <==> Between(op, b, c)
  {
    hide Between, Emit;
    LoopSize(Loop(plus, a, [op]));
    assert op in [op];
  }

  lemma {:induction false} TakesTest(a: Atom, op: TestOp, b: Option<Byte>, c: Byte, d: Byte, e: Option<Byte>)
    requires Updates(Loop(false, a, [op])) && Takes(Loop(false, a, [op]), b, c, d, e)
    ensures LosesTest(a, op)
  {
    hide AtomReads, IsWord, AllBetween;
    OneTest(false, a, op);
    assert IsTestOp(op) && AtomReads(a, c) && AtomReads(a, d) && op in [op];
    if op == CWORDBOUND { assert e.Some? && !AtomReads(a, e.value) && IsWord(d) == IsWord(e.value); }
  }

  lemma {:induction false} TestTakes(a: Atom, op: TestOp)
    requires LosesTest(a, op)
    ensures exists b: Option<Byte>, c: Byte, d: Byte, e: Option<Byte> :: Takes(Loop(false, a, [op]), b, c, d, e)
  {
    hide AtomReads, IsWord, AllBetween;
    var w := Loop(false, a, [op]);
    OneTest(false, a, op);
    LetterIsWord();
    if op == CBOL {
      var c: Byte :| AtomReads(a, c) && c != NEWLINE;
      assert Takes(w, None, c, c, None);
    } else if op == CBEGBUF {
      var c: Byte :| AtomReads(a, c);
      assert Takes(w, None, c, c, None);
    } else if op == CNOTWORDBOUND {
      var c: Byte :| AtomReads(a, c);
      assert Takes(w, Some(c), c, c, None);
    } else if op == CWORDBEG {
      var c: Byte :| AtomReads(a, c) && IsWord(c);
      assert Takes(w, None, c, c, None);
    } else if op == CWORDEND {
      var c: Byte :| AtomReads(a, c) && !IsWord(c);
      assert Takes(w, Some(97), c, c, None);
    } else {
      var c: Byte, d: Byte :| AtomReads(a, c) && !AtomReads(a, d) && IsWord(c) == IsWord(d);
      assert Takes(w, None, c, c, Some(d));
    }
  }

  lemma {:induction false} LetterIsWord()
    ensures IsWord(97) && IsWord(98)
  {
  }

  /** A `*` loop and one test. */
  lemma {:induction false} WhenTestMissed(a: Atom, op: TestOp)
    requires ReadsOne(a)
    ensures CanMiss(Loop(false, a, [op]).Expr()) <==> LosesTest(a, op)
  {
    hide AtomReads, CanMiss, LosesTest, Takes, AllBetween;
    var w := Loop(false, a, [op]);
    OneTest(false, a, op);
    WhenMissed(w);
    if Loses(w) {
      var b: Option<Byte>, c: Byte, d: Byte, e: Option<Byte> :| Takes(w, b, c, d, e);
      TakesTest(a, op, b, c, d, e);
    }
    if LosesTest(a, op) {
      LosesUpdates(a, op);
      TestTakes(a, op);
    }
  }

  lemma {:induction false} LosesUpdates(a: Atom, op: TestOp)
    requires LosesTest(a, op)
    ensures Updates(Loop(false, a, [op]))
  {
  }

  /** In particular over one character. With `+`, which leaves its failure point between two of them, only
      the test for no word boundary can be lost. */
  lemma {:induction false} WhenOneMissed(plus: bool, c: Byte, op: TestOp)
    ensures CanMiss(Loop(plus, Char(c), [op]).Expr()) <==>
      if plus then op == CNOTWORDBOUND
      else
        || (op == CBOL && c != NEWLINE) || op == CBEGBUF || (op == CWORDBEG && IsWord(c))
        || (op == CWORDEND && !IsWord(c)) || op == CWORDBOUND || op == CNOTWORDBOUND
  {
    hide CanMiss, IsWord, AllBetween;
    var a, w := Char(c), Loop(plus, Char(c), [op]);
    assert AtomReads(a, c);
    if plus {
      OneTest(true, a, op);
      WhenMissed(w);
      assert IsTestOp(op);
      if op == CNOTWORDBOUND { assert Takes(w, Some(c), c, c, None); }
    } else {
      WhenTestMissed(a, op);
      if op == CWORDBOUND {
        var d := SameKind(c);
        assert !AtomReads(a, d) && IsWord(c) == IsWord(d);
      }
    }
  }

  lemma {:induction false} SameKind(c: Byte) returns (d: Byte)
    ensures d != c && IsWord(d) == IsWord(c)
  {
    d := if IsWord(c) then (if c == 97 then 98 else 97) else if c == 0 then 1 else 0;
  }

  /** `a*\b` matches the empty string at the start of "ab", but the matcher, having moved its failure
      point past the `a`, answers that nothing matches. */
  lemma {:induction false} UnsafeMisses()
    ensures var r := Loop(false, Char(97), [CWORDBOUND]).Expr();
      MatchesAt(r, [97, 98], 0) && Answers(r, [97, 98], 0, NoMatch) && !Safe(r)
  {
    hide Program, CanUpdate, Answers, MatchesAt, Safe, Supported, IsWord, Small, Around, Boundaries, WellFormed,
      Matches, Tests;
    var w, txt: Text := Loop(false, Char(97), [CWORDBOUND]), [97, 98];
    OneTest(false, Char(97), CWORDBOUND);
    WhenUpdated(w);
    LoopCode(w);
    LetterIsWord();
    StopsAt(w.a, txt, 0, 1);
    assert CWORDBOUND in w.ops && !TestOk(CWORDBOUND, txt, 1) && AllOk(w.ops, txt, 0);
    MissedIsLost(w, txt, 0);
    var o := AnswerMeaning(w.Expr(), txt, 0);
  }

  // ---- The analysis from inside a rewritten loop ------------------------------------------------------------------

  /** From the updating jump of a rewritten loop the analysis sees the loop only. */
  lemma {:induction false} TailMap(w: Loop, now: Code, map': seq<bool>, null': Byte)
    requires w.Ok() && Variant(w.Compiled(), Boundaries(w.Expr()), now)
    requires Decode(now, w.Back()) == UpdateJump(w.Body()) && Analysed(now, w.Back(), map', null')
    ensures null' == 0 && forall c: Byte :: map'[c] <==> AtomReads(w.a, c)
  {
    hide Decode, Next, CharOk, AtomReads, Program, EpsReachIn, WellFormed, Boundaries, Variant;
    var q, h := w.Back(), w.Body();
    VariantAround(w, now);
    var seen := {q, h};
    assert Explored(now, seen, {}, seen);
    forall x | EpsReach(now, q, x) ensures x in seen {
      var n: nat :| EpsReachIn(now, q, x, n);
      ClosedReach(now, seen, q, x, n);
    }
    Here(now, q);
    ReachStep(now, q, q, h);
  }

  lemma {:induction false} EndAccepted(w: Loop)
    requires w.Ok() && w.ops == [CENDBUF]
    ensures Accepts(w.Compiled(), [], w.Back(), 0, 0)
  {
    hide Decode, Next, CharOk, AtomReads, Program, WellFormed, Boundaries, Accepts, IsBound;
    var code := w.Compiled();
    LoopCode(w);
    assert Decode(code, w.Exit()) == Test(w.ops[0]);
    AcceptsBack(code, [], w.Exit() + 1, 0, 0);
    AcceptsBack(code, [], w.Exit(), 0, 0);
    AcceptsBack(code, [], w.Fork(), 0, 0);
    AcceptsBack(code, [], w.Back(), 0, 0);
  }

  /** So the soundness of the analysis on rewritten code does not extend to such positions: the loop can
      be left at the end of the text, which the analysis does not see. */
  lemma {:induction false} TailUnsound(a: Atom) returns (now: Code)
    requires Rewritable(a)
    ensures var w := Loop(false, a, [CENDBUF]);
      && WellFormed(w.Compiled(), Boundaries(w.Expr())) && Variant(w.Compiled(), Boundaries(w.Expr()), now)
      && w.Back() in Boundaries(w.Expr()) && Accepts(w.Compiled(), [], w.Back(), 0, 0)
      && forall map', null' :: Analysed(now, w.Back(), map', null') ==> null' == 0
  {
    hide Decode, Next, CharOk, AtomReads, Program, WellFormed, Boundaries, Variant, CanUpdate, Accepts, Analysed,
      Around;
    var w := Loop(false, a, [CENDBUF]);
    var code := w.Compiled();
    OneTest(false, a, CENDBUF);
    LoopCode(w);
    WhenUpdated(w);
    Fresh(code, Boundaries(w.Expr()));
    now := Turned(w, code);
    assert IsBound(w, w.Back());
    forall map', null' | Analysed(now, w.Back(), map', null') ensures null' == 0 { TailMap(w, now, map', null'); }
    EndAccepted(w);
  }
}
