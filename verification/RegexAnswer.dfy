/** What an attempt to match answers is the same however often the program has been used before. */
module RegexAnswer {
  import opened RegexCode
  import opened RegexAst
  import opened RegexWellFormed
  import opened RegexMachine
  import opened RegexLoops
  import opened RegexRuns
  import opened RegexRank
  import opened RegexEngine

  // ---- The rewriting test does not depend on rewriting ------------------------------------------------

  /** A step of the character analysis on rewritten code takes one or two on the original. */
  lemma {:induction false} StepBack(code: Code, bounds: set<int>, now: Code, p: int, y: int, x: int, n: nat)
    returns (m: nat)
    requires WellFormed(code, bounds) && Variant(code, bounds, now) && p in bounds
    requires EpsStep(now, p, y) && EpsReachIn(code, y, x, n)
    ensures EpsReachIn(code, p, x, m)
  {
    hide WellFormed, Decode, Next, Variant, CharOk, CanUpdate;
    At(code, bounds, p);
    VariantAt(code, bounds, now, p);
    m := n + 1;
    if Decode(now, p).UpdateJump? {
      var t := Decode(code, p).target;
      assert EpsStep(code, t, y) && EpsStep(code, p, t);
      assert EpsReachIn(code, t, x, n + 1);
      m := n + 2;
    } else {
      assert EpsStep(code, p, y);
    }
  }

  lemma {:induction false} StepStays(code: Code, bounds: set<int>, now: Code, p: int, y: int)
    requires WellFormed(code, bounds) && Variant(code, bounds, now) && p in bounds && EpsStep(now, p, y)
    ensures y in bounds
  {
    hide WellFormed, Decode, Next, Variant, CharOk, Reader, StraightTo;
    At(code, bounds, p);
    VariantAt(code, bounds, now, p);
    if Decode(now, p).UpdateJump? { BodyFacts(code, bounds, p, p); }
  }

  lemma {:induction false} ReachBack(code: Code, bounds: set<int>, now: Code, p: int, x: int, n: nat) returns (m: nat)
    requires WellFormed(code, bounds) && Variant(code, bounds, now) && p in bounds && EpsReachIn(now, p, x, n)
    ensures EpsReachIn(code, p, x, m) && x in bounds
    decreases n
  {
    hide WellFormed, Variant, EpsStep;
    m := 0;
    if n > 0 {
      var y :| EpsStep(now, p, y) && EpsReachIn(now, y, x, n - 1);
      StepStays(code, bounds, now, p, y);
      m := ReachBack(code, bounds, now, y, x, n - 1);
      m := StepBack(code, bounds, now, p, y, x, m);
    }
  }

  /** Rewriting gains no first character. */
  lemma {:induction false} FirstCharBefore(code: Code, bounds: set<int>, now: Code, p: int, c: Byte)
    requires WellFormed(code, bounds) && Variant(code, bounds, now) && p in bounds && FirstChar(now, p, c)
    ensures FirstChar(code, p, c)
  {
    hide WellFormed, Decode, Next, Variant, CharOk, EpsReachIn, CanUpdate;
    var x :| EpsReach(now, p, x) && Contributes(now, x, c);
    var n: nat :| EpsReachIn(now, p, x, n);
    var m := ReachBack(code, bounds, now, p, x, n);
    VariantAt(code, bounds, now, x);
    assert EpsReach(code, p, x) && Contributes(code, x, c);
  }

  /** At a star jump still to be rewritten, the test gives what it gives on the program as compiled. */
  lemma {:induction false} SameTest(code: Code, bounds: set<int>, now: Code, q: int)
    requires WellFormed(code, bounds) && Variant(code, bounds, now) && q in bounds && Decode(now, q).StarJump?
    ensures CanUpdate(now, q) <==> CanUpdate(code, q)
  {
    hide WellFormed, Decode, Next, Variant, CharOk, FirstChar, Reader, StraightTo;
    if CanUpdate(now, q) { UpdateSound(code, bounds, now, q); }
    if CanUpdate(code, q) {
      At(code, bounds, q);
      VariantAt(code, bounds, now, q);
      BodyFacts(code, bounds, q, q);
      SameReader(code, bounds, now, Head(code, q));
      var f := FirstReader(code, q);
      At(code, bounds, f);
      VariantAt(code, bounds, now, f);
      SameStraight(code, bounds, now, Next(code, f), q);
      forall c: Byte | CharOk(now, f, c) ensures !FirstChar(now, q + 3, c) {
        if FirstChar(now, q + 3, c) { FirstCharBefore(code, bounds, now, q + 3, c); }
      }
    }
  }

  // ---- Programs as the matcher leaves them --------------------------------------------------------------

  /** A variant in which each rewritten star jump became what the test decides. */
  ghost predicate Genuine(code: Code, bounds: set<int>, now: Code) {
    && Variant(code, bounds, now)
    && forall q <- bounds :: Decode(code, q).StarJump? && CanUpdate(code, q) ==> !Decode(now, q).Jump?
  }

  lemma {:induction false} GenuineFresh(code: Code, bounds: set<int>)
    requires WellFormed(code, bounds)
    ensures Genuine(code, bounds, code)
  {
    hide WellFormed, Decode, Variant, CanUpdate;
    Fresh(code, bounds);
  }

  /** Every step leaves such a program. */
  lemma {:induction false} GenuineStep(code: Code, bounds: set<int>, s: State, txt: Text)
    requires WellFormed(code, bounds) && Inv(code, bounds, s, txt) && Genuine(code, bounds, s.code)
    ensures match Step(true, s, txt)
      case Running(s') => Genuine(code, bounds, s'.code)
      case Halted(_, later) => Genuine(code, bounds, later)
  {
    hide WellFormed, Decode, Next, Variant, CharOk, FrameOk, LoopOk, TestOk, CanUpdate, Backtrack, Patch;
    BacktrackHalts(s.code, s.stack);
    if Decode(s.code, s.pc).StarJump? { GenuineStar(code, bounds, s, txt); }
  }

  lemma {:induction false} GenuineStar(code: Code, bounds: set<int>, s: State, txt: Text)
    requires WellFormed(code, bounds) && Inv(code, bounds, s, txt) && Genuine(code, bounds, s.code)
    requires Decode(s.code, s.pc).StarJump?
    ensures Step(true, s, txt).Running? && Genuine(code, bounds, Step(true, s, txt).state.code)
  {
    hide WellFormed, Decode, Next, Variant, CharOk, FrameOk, LoopOk, TestOk, CanUpdate, Backtrack, Lo, Hi;
    var now, q := s.code, s.pc;
    At(code, bounds, q);
    VariantAt(code, bounds, now, q);
    SameTest(code, bounds, now, q);
    StarStepInv(code, bounds, true, s, txt);
    var later := Step(true, s, txt).state.code;
    if CanUpdate(now, q) { MakeUpdateJump(code, bounds, now, q); } else { MakeNormalJump(code, bounds, now, q); }
    forall p <- bounds | Decode(code, p).StarJump? && CanUpdate(code, p) ensures !Decode(later, p).Jump? {
      if p != q { OtherInstr(code, bounds, now, q, later, p); }
    }
  }

  // ---- Two programs rewritten to different degrees run alike ----------------------------------------------

  /** The next step only turns a star jump into a plain jump. */
  ghost predicate Turning(s: State) {
    Decode(s.code, s.pc).StarJump? && !CanUpdate(s.code, s.pc)
  }

  /** Two results of a step that differ at most in the code. */
  ghost predicate Alike(x: Stepped, y: Stepped) {
    match x
    case Halted(o, _) => y.Halted? && y.outcome == o
    case Running(s) => y.Running? && y.state == s.(code := y.state.code)
  }

  lemma {:induction false} BacktrackAlike(a: Code, b: Code, stack: seq<Frame>)
    ensures Alike(Backtrack(a, stack), Backtrack(b, stack))
    decreases |stack|
  {
    if stack != [] { BacktrackAlike(a, b, stack[..|stack| - 1]); }
  }

  /** A star jump the matcher has passed, or is about to turn into an updating jump. */
  lemma {:induction false} StarAlike(code: Code, bounds: set<int>, s: State, txt: Text)
    requires WellFormed(code, bounds) && Inv(code, bounds, s, txt) && Genuine(code, bounds, s.code) && !Turning(s)
    requires Decode(code, s.pc).StarJump?
    ensures var t := Decode(code, s.pc).target;
      Alike(Step(true, s, txt), if CanUpdate(code, s.pc) then Update(s, t + 3) else Running(s.(pc := t)))
  {
    hide WellFormed, Decode, Next, Variant, CharOk, FrameOk, LoopOk, TestOk, CanUpdate, Backtrack, Patch;
    VariantAt(code, bounds, s.code, s.pc);
    if Decode(s.code, s.pc).StarJump? { SameTest(code, bounds, s.code, s.pc); }
  }

  lemma {:induction false} StepAlike(code: Code, bounds: set<int>, s: State, s2: State, txt: Text)
    requires WellFormed(code, bounds) && Inv(code, bounds, s, txt) && Inv(code, bounds, s2, txt)
    requires Genuine(code, bounds, s.code) && Genuine(code, bounds, s2.code) && s2 == s.(code := s2.code)
    requires !Turning(s) && !Turning(s2)
    ensures Alike(Step(true, s, txt), Step(true, s2, txt))
  {
    hide WellFormed, Decode, Next, Variant, CharOk, FrameOk, LoopOk, TestOk, CanUpdate, Backtrack, Patch;
    BacktrackAlike(s.code, s2.code, s.stack);
    At(code, bounds, s.pc);
    VariantAt(code, bounds, s.code, s.pc);
    VariantAt(code, bounds, s2.code, s.pc);
    if Decode(code, s.pc).StarJump? {
      StarAlike(code, bounds, s, txt);
      StarAlike(code, bounds, s2, txt);
    } else if Decode(code, s.pc).DummyJump? {
      VariantAt(code, bounds, s.code, s.pc + 3);
      VariantAt(code, bounds, s2.code, s.pc + 3);
    }
  }

  lemma {:induction false} TurnStep(code: Code, bounds: set<int>, s: State, txt: Text)
    requires WellFormed(code, bounds) && Inv(code, bounds, s, txt) && Genuine(code, bounds, s.code) && Turning(s)
    ensures Step(true, s, txt).Running?
    ensures var s' := Step(true, s, txt).state;
      s' == s.(code := s'.code) && Inv(code, bounds, s', txt) && Genuine(code, bounds, s'.code)
  {
    hide WellFormed, Decode, Variant, FrameOk, LoopOk, CanUpdate;
    StepInv(code, bounds, true, s, txt);
    GenuineStep(code, bounds, s, txt);
    At(code, bounds, s.pc);
    VariantAt(code, bounds, s.code, s.pc);
  }

  /** Runs from the same place, on programs rewritten to different degrees, end alike. */
  lemma {:induction false} SameOutcome(code: Code, bounds: set<int>, s: State, s2: State, txt: Text, n: nat,
                                       o: Outcome, later: Code, n2: nat, o2: Outcome, later2: Code)
    requires WellFormed(code, bounds) && Inv(code, bounds, s, txt) && Inv(code, bounds, s2, txt)
    requires Genuine(code, bounds, s.code) && Genuine(code, bounds, s2.code) && s2 == s.(code := s2.code)
    requires RunsTo(true, s, txt, n, o, later) && RunsTo(true, s2, txt, n2, o2, later2)
    ensures o == o2
    decreases n + n2
  {
    hide WellFormed, Step, Variant, FrameOk, LoopOk, Genuine, Turning;
    if Turning(s) {
      TurnStep(code, bounds, s, txt);
      SameOutcome(code, bounds, Step(true, s, txt).state, s2, txt, n - 1, o, later, n2, o2, later2);
    } else if Turning(s2) {
      TurnStep(code, bounds, s2, txt);
      SameOutcome(code, bounds, s, Step(true, s2, txt).state, txt, n, o, later, n2 - 1, o2, later2);
    } else {
      StepAlike(code, bounds, s, s2, txt);
      StepInv(code, bounds, true, s, txt);
      StepInv(code, bounds, true, s2, txt);
      GenuineStep(code, bounds, s, txt);
      GenuineStep(code, bounds, s2, txt);
      match Step(true, s, txt)
      case Halted(_, _) =>
      case Running(s') =>
        SameOutcome(code, bounds, s', Step(true, s2, txt).state, txt, n - 1, o, later, n2 - 1, o2, later2);
    }
  }

  lemma {:induction false} GenuineRun(code: Code, bounds: set<int>, s: State, txt: Text, n: nat, o: Outcome,
                                      later: Code)
    requires WellFormed(code, bounds) && Inv(code, bounds, s, txt) && Genuine(code, bounds, s.code)
    requires RunsTo(true, s, txt, n, o, later)
    ensures Genuine(code, bounds, later)
    decreases n
  {
    hide WellFormed, Step, Variant, FrameOk, LoopOk, Genuine;
    StepInv(code, bounds, true, s, txt);
    GenuineStep(code, bounds, s, txt);
    match Step(true, s, txt)
    case Halted(_, _) =>
    case Running(s') => GenuineRun(code, bounds, s', txt, n - 1, o, later);
  }

  // ---- The answer at a position ------------------------------------------------------------------------------

  /** Matching at p with the program as it was compiled ends with o. */
  ghost predicate Answers(r: Regex, txt: Text, p: nat, o: Outcome)
    requires p <= |txt|
  {
    exists n: nat, later :: RunsTo(true, Initial(Program(r), p), txt, n, o, later)
  }

  /** With the program as any number of earlier attempts have left it, matching ends the same way. */
  lemma {:induction false} AnswerNow(r: Regex, now: Code, txt: Text, p: nat, n: nat, o: Outcome, later: Code,
                                     o2: Outcome)
    requires Supported(r) && Small(r) && Genuine(Program(r), Boundaries(r), now) && p <= |txt|
    requires RunsTo(true, Initial(now, p), txt, n, o, later)
    ensures Genuine(Program(r), Boundaries(r), later)
    ensures Answers(r, txt, p, o2) <==> o2 == o
  {
    hide WellFormed, Step, Inv, Variant, Program, Boundaries, RunsTo, CanUpdate;
    var code, bounds := Program(r), Boundaries(r);
    ProgramWellFormed(r);
    GenuineFresh(code, bounds);
    InitialInv(code, bounds, code, p, txt);
    InitialInv(code, bounds, now, p, txt);
    GenuineRun(code, bounds, Initial(now, p), txt, n, o, later);
    if Answers(r, txt, p, o2) {
      var n2: nat, later2 :| RunsTo(true, Initial(code, p), txt, n2, o2, later2);
      SameOutcome(code, bounds, Initial(now, p), Initial(code, p), txt, n, o, later, n2, o2, later2);
    }
    var n1, o1, later1 := Halts(code, bounds, true, Initial(code, p), txt, 0);
    SameOutcome(code, bounds, Initial(now, p), Initial(code, p), txt, n, o, later, n1, o1, later1);
  }

  /** Some answer is a match. */
  ghost predicate Succeeds(r: Regex, txt: Text, p: nat)
    requires p <= |txt|
  {
    exists e: nat :: Answers(r, txt, p, Matched(e))
  }

  /** Exactly one thing is answered at each position, and it is about the expression: a match ends where
      the expression matches, and (for safe programs) it matches nowhere from p if none is reported. */
  lemma {:induction false} AnswerMeaning(r: Regex, txt: Text, p: nat) returns (o: Outcome)
    requires Supported(r) && Small(r) && p <= |txt|
    ensures forall o2 :: Answers(r, txt, p, o2) <==> o2 == o
    ensures o.Matched? ==> p <= o.end <= |txt| && Matches(r, txt, p, o.end)
    ensures o == NoMatch && Safe(r) ==> !MatchesAt(r, txt, p)
    ensures o != Aborted
  {
    hide WellFormed, Inv, Variant, Program, Boundaries, RunsTo, CanUpdate, Answers, Matches, MatchesAt, Safe;
    var code, bounds := Program(r), Boundaries(r);
    ProgramWellFormed(r);
    GenuineFresh(code, bounds);
    InitialInv(code, bounds, code, p, txt);
    var n, later;
    n, o, later := Halts(code, bounds, true, Initial(code, p), txt, 0);
    forall o2 ensures Answers(r, txt, p, o2) <==> o2 == o { AnswerNow(r, code, txt, p, n, o, later, o2); }
    RunCorrect(r, code, txt, p, n, o, later);
  }

  /** Where the expression does not match, matching does not succeed. */
  lemma {:induction false} NoSuccess(r: Regex, txt: Text, p: nat)
    requires Supported(r) && Small(r) && p <= |txt| && !MatchesAt(r, txt, p)
    ensures !Succeeds(r, txt, p)
  {
    hide Answers, Matches, Safe, Program;
    var o := AnswerMeaning(r, txt, p);
  }
}
