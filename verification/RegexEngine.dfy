/** The compiled pattern as callers use it: matching at a position, and forward search. */
module RegexEngine {
  import opened RegexCode
  import opened RegexAst
  import opened RegexWellFormed
  import opened RegexMeaning
  import opened RegexMachine
  import opened RegexLoops
  import opened RegexRuns
  import opened RegexCorrect

  // ---- The answers of the machine, in terms of the expression ------------------------------------

  /** No failure point that the program moves is ever missed. */
  ghost predicate Safe(r: Regex) {
    LoopsSafe(Program(r), Boundaries(r))
  }

  ghost predicate MatchesAt(r: Regex, txt: Text, i: nat)
    requires i <= |txt|
  {
    exists k: nat | k <= |txt| :: Matches(r, txt, i, k)
  }

  /** Whatever a run reports is so: a match of the whole expression, or (for safe programs) that
      there is none. This holds for the program as compiled and as earlier runs have rewritten it. */
  lemma {:induction false} RunCorrect(r: Regex, now: Code, txt: Text, pos: nat, n: nat, o: Outcome, later: Code)
    requires Supported(r) && Small(r) && Variant(Program(r), Boundaries(r), now) && pos <= |txt|
    requires RunsTo(true, Initial(now, pos), txt, n, o, later)
    ensures o != Aborted && Variant(Program(r), Boundaries(r), later)
    ensures o.Matched? ==> pos <= o.end <= |txt| && Matches(r, txt, pos, o.end)
    ensures o == NoMatch && Safe(r) ==> !MatchesAt(r, txt, pos)
  {
    hide Matches, Program, Boundaries, Variant, WellFormed, LoopsSafe, RunsTo, Inv, Accepts, Supported;
    var code, bounds, s := Program(r), Boundaries(r), Initial(now, pos);
    ProgramWellFormed(r);
    InitialInv(code, bounds, now, pos, txt);
    RunVariant(code, bounds, true, s, txt, n, o, later);
    match o
    case Matched(e) =>
      RunSound(code, bounds, true, s, txt, n, e, later);
      ProgramMeaning(r, txt, pos, e);
      MatchForward(r, txt, pos, e);
    case NoMatch =>
      if Safe(r) {
        forall k: nat | k <= |txt| ensures !Matches(r, txt, pos, k) {
          RunComplete(code, bounds, true, s, txt, n, later, k);
          ProgramMeaning(r, txt, pos, k);
        }
      }
    case _ =>
  }

  /** The matcher gives up exactly where it has to push a failure point while 4100 are pending. */
  lemma {:induction false} OverflowExactly(opt: bool, s: State, txt: Text)
    requires s.at <= |txt|
    ensures var d := Decode(s.code, s.pc);
      Step(opt, s, txt) == Halted(Overflow, s.code) <==>
        |s.stack| >= 4100 && (d.FailJump? || (d.DummyJump? && Decode(s.code, s.pc + 3).FailJump?))
  {
    hide Decode, CharOk, TestOk, CanUpdate, Patch, Next;
    BacktrackHalts(s.code, s.stack);
  }

  /** Within n steps from s the failure stack is full. */
  ghost predicate Fills(opt: bool, s: State, txt: Text, n: nat)
    requires s.at <= |txt|
    decreases n
  {
    |s.stack| >= 4100
    || (n > 0 && Step(opt, s, txt).Running?
        && Step(opt, s, txt).state.at <= |txt| && Fills(opt, Step(opt, s, txt).state, txt, n - 1))
  }

  /** Only a full stack of pending alternatives makes the matcher give up. */
  lemma {:induction false} OverflowMeansFull(opt: bool, s: State, txt: Text, n: nat, later: Code)
    requires s.at <= |txt| && RunsTo(opt, s, txt, n, Overflow, later)
    ensures Fills(opt, s, txt, n)
    decreases n
  {
    hide Decode, CharOk, TestOk, CanUpdate, Patch, Next;
    BacktrackHalts(s.code, s.stack);
    match Step(opt, s, txt)
    case Halted(_, _) =>
    case Running(s') => OverflowMeansFull(opt, s', txt, n - 1, later);
  }

  /** A match does not end before it begins. */
  lemma {:induction false} MatchForward(r: Regex, txt: Text, i: nat, j: nat)
    requires i <= |txt| && j <= |txt| && Matches(r, txt, i, j)
    ensures i <= j
    decreases r, 0
  {
    match r
    case Cat(x, y) =>
      var m: nat :| m <= |txt| && Matches(x, txt, i, m) && Matches(y, txt, m, j);
      MatchForward(x, txt, i, m);
      MatchForward(y, txt, m, j);
    case Alt(x, y) => if Matches(x, txt, i, j) { MatchForward(x, txt, i, j); } else { MatchForward(y, txt, i, j); }
    case Star(x) => var n: nat :| Repeats(x, txt, i, j, n); RepeatsForward(x, txt, i, j, n);
    case Plus(x) => var n: nat :| Repeats(x, txt, i, j, n); RepeatsForward(x, txt, i, j, n);
    case Opt(x) => if i != j { MatchForward(x, txt, i, j); }
    case Group(_, x) => MatchForward(x, txt, i, j);
    case _ =>
  }

  lemma {:induction false} RepeatsForward(x: Regex, txt: Text, i: nat, j: nat, n: nat)
    requires i <= |txt| && j <= |txt| && Repeats(x, txt, i, j, n)
    ensures i <= j
    decreases x, 1, n
  {
    hide Matches;
    if n > 0 {
      var m: nat :| m <= |txt| && Matches(x, txt, i, m) && Repeats(x, txt, m, j, n - 1);
      MatchForward(x, txt, i, m);
      RepeatsForward(x, txt, m, j, n - 1);
    }
  }

  // ---- Which expressions are safe ------------------------------------------------------------------

  /** A test whose outcome depends on where in the text it is made, other than at the very end. */
  predicate IsPositionTest(op: TestOp) {
    op != CEOL && op != CENDBUF
  }

  predicate NoPositionTests(r: Regex) {
    match r
    case Empty => true
    case Leaf(a) => a.Assert? ==> !IsPositionTest(a.op)
    case Cat(x, y) => NoPositionTests(x) && NoPositionTests(y)
    case Alt(x, y) => NoPositionTests(x) && NoPositionTests(y)
    case Star(x) => NoPositionTests(x)
    case Plus(x) => NoPositionTests(x)
    case Opt(x) => NoPositionTests(x)
    case Group(_, x) => NoPositionTests(x)
  }

  /** Position tests only as the very first instruction, as in `^...`. */
  predicate TestsOnlyFirst(r: Regex) {
    match r
    case Leaf(_) => true
    case Cat(x, y) => if Len(x) == 0 then TestsOnlyFirst(y) else TestsOnlyFirst(x) && NoPositionTests(y)
    case Group(g, x) => if g == 0 then TestsOnlyFirst(x) else NoPositionTests(x)
    case _ => NoPositionTests(r)
  }

  lemma {:induction false} TestsAt(code: Code, r: Regex, b: int, p: int)
    requires Placed(code, r, b) && |code| < 0x8000 && Supported(r) && p in Starts(r, b)
    requires NoPositionTests(r) || (TestsOnlyFirst(r) && p != b)
    ensures Decode(code, p).Test? ==> !IsPositionTest(Decode(code, p).op)
    decreases r
  {
    hide Decode, Emit, Next, Holds, Own, Starts, CharOk, AtomReads;
    if p in Own(r, b) { OwnTests(code, r, b, p); }
    else {
      var k := PartOf(r, b, p);
      PartInside(code, r, b, k);
      TestsOfPart(r, k);
      if !NoPositionTests(Parts(r)[k].0) { FirstEmpty(code, r, b, p, k); }
      TestsAt(code, Parts(r)[k].0, From(r, b, k), p);
    }
  }

  lemma {:induction false} OwnTests(code: Code, r: Regex, b: int, p: int)
    requires Placed(code, r, b) && |code| < 0x8000 && Supported(r) && p in Own(r, b)
    requires NoPositionTests(r) || p != b
    ensures Decode(code, p).Test? ==> !IsPositionTest(Decode(code, p).op)
  {
    hide Decode, Emit, Next, Holds, CharOk, AtomReads;
    Unfold(code, r, b);
  }

  lemma {:induction false} TestsOfPart(r: Regex, k: nat)
    requires k < |Parts(r)|
    ensures NoPositionTests(r) ==> NoPositionTests(Parts(r)[k].0)
    ensures TestsOnlyFirst(r) && !NoPositionTests(Parts(r)[k].0) ==> TestsOnlyFirst(Parts(r)[k].0)
  {
    hide Len;
    match r
    case Cat(x, y) => if Len(x) == 0 { EmptyNoTests(x); }
    case _ =>
  }

  /** A part that may begin with a position test begins where r begins. */
  lemma {:induction false} FirstEmpty(code: Code, r: Regex, b: int, p: int, k: nat)
    requires k < |Parts(r)| && TestsOnlyFirst(r) && !NoPositionTests(Parts(r)[k].0)
    ensures From(r, b, k) == b
  {
    hide Emit;
    if r.Cat? && Len(r.left) == 0 { EmptyNoTests(r.left); }
  }

  lemma {:induction false} EmptyNoTests(r: Regex)
    requires Len(r) == 0
    ensures NoPositionTests(r)
  {
    match r
    case Cat(x, y) => EmptyNoTests(x); EmptyNoTests(y);
    case Group(_, x) => EmptyNoTests(x);
    case _ =>
  }

  /** Expressions that test the position nowhere but at their very start are safe. In particular all
      those made of characters, sets, `.`, groups, `|`, `*`, `+`, `?` and `$` are. */
  lemma {:induction false} SafeExpressions(r: Regex)
    requires Supported(r) && Small(r) && (NoPositionTests(r) || TestsOnlyFirst(r))
    ensures Safe(r)
  {
    hide Decode, Next, Program, WellFormed, Boundaries, CanUpdate, LooseIn, FreeIn;
    var code, bounds := Program(r), Boundaries(r);
    ProgramWellFormed(r);
    forall q <- bounds | CanUpdate(code, q) ensures SafeExit(code, q) {
      At(code, bounds, q);
      StarOfLoop(code, q);
      if Loose(code, q + 3, |code| - 1) {
        var n: nat :| LooseIn(code, q + 3, |code| - 1, n);
        LooseIsFree(r, q + 3, |code| - 1, n);
        assert Free(code, q + 3, |code| - 1);
      }
    }
  }

  lemma {:induction false} StarOfLoop(code: Code, q: int)
    requires CanUpdate(code, q)
    ensures Decode(code, q).StarJump?
  {
  }

  lemma {:induction false} LooseIsFree(r: Regex, p: int, x: int, n: nat)
    requires Supported(r) && Small(r) && (NoPositionTests(r) || TestsOnlyFirst(r))
    requires p in Boundaries(r) && (p != 0 || !Decode(Program(r), p).Test?) && LooseIn(Program(r), p, x, n)
    ensures FreeIn(Program(r), p, x, n)
    decreases n
  {
    hide Decode, Next, Program, WellFormed, Boundaries;
    var code, bounds := Program(r), Boundaries(r);
    ProgramWellFormed(r);
    if n > 0 {
      var y :| LooseStep(code, p, y) && LooseIn(code, y, x, n - 1);
      At(code, bounds, p);
      NoTestHere(r, p);
      if y == 0 { BackToStart(code, bounds, p); }
      LooseIsFree(r, y, x, n - 1);
      assert FreeStep(code, p, y);
    }
  }

  lemma {:induction false} NoTestHere(r: Regex, p: int)
    requires Supported(r) && Small(r) && (NoPositionTests(r) || TestsOnlyFirst(r))
    requires p in Boundaries(r) && (p != 0 || !Decode(Program(r), p).Test?)
    ensures Decode(Program(r), p).Test? ==> !IsPositionTest(Decode(Program(r), p).op)
  {
    hide Decode, Emit, Next, Holds, Starts, Program;
    ProgramPlaced(r);
    if p in Starts(r, 0) && (NoPositionTests(r) || p != 0) { TestsAt(Program(r), r, 0, p); }
  }

  /** Only a star jump leads back to the start of the program, which then is a failure jump. */
  lemma {:induction false} BackToStart(code: Code, bounds: set<int>, p: int)
    requires WellFormed(code, bounds) && p in bounds && EpsStep(code, p, 0)
    ensures !Decode(code, 0).Test?
  {
    hide WellFormed, Decode, Next;
    At(code, bounds, p);
  }
}
