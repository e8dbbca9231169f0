/** What holds on every state of every run of the matcher on a compiled program. */
module RegexRuns {
  import opened RegexCode
  import opened RegexWellFormed
  import opened RegexMachine
  import opened RegexLoops

  // ---- The rewriting test, made on rewritten code, is right about the original -------------------

  lemma {:induction false} StepNow(code: Code, bounds: set<int>, now: Code, p: int, y: int)
    requires WellFormed(code, bounds) && Variant(code, bounds, now) && p in bounds
    requires !InTail(code, bounds, p) && EpsStep(code, p, y)
    ensures EpsStep(now, p, y) && y in bounds && !InTail(code, bounds, y)
  {
    hide WellFormed, Decode, Next, Reader, StraightTo, Variant;
    At(code, bounds, p);
    VariantAt(code, bounds, now, p);
    if InTail(code, bounds, y) { TailEntry(code, bounds, p, y); }
    if Decode(now, p).UpdateJump? { BodyFacts(code, bounds, p, p); }
  }

  lemma {:induction false} ReachNow(code: Code, bounds: set<int>, now: Code, p: int, x: int, n: nat)
    requires WellFormed(code, bounds) && Variant(code, bounds, now) && p in bounds
    requires !InTail(code, bounds, p) && EpsReachIn(code, p, x, n)
    ensures EpsReachIn(now, p, x, n) && x in bounds
    decreases n
  {
    hide WellFormed, Decode, Next, InTail, Variant, EpsStep;
    if n > 0 {
      var y :| EpsStep(code, p, y) && EpsReachIn(code, y, x, n - 1);
      StepNow(code, bounds, now, p, y);
      ReachNow(code, bounds, now, y, x, n - 1);
    }
  }

  /** Rewriting loses no first character, seen from outside the tails of straight loops. */
  lemma {:induction false} FirstCharNow(code: Code, bounds: set<int>, now: Code, p: int, c: Byte)
    requires WellFormed(code, bounds) && Variant(code, bounds, now) && p in bounds
    requires !InTail(code, bounds, p) && FirstChar(code, p, c)
    ensures FirstChar(now, p, c)
  {
    hide WellFormed, Decode, Next, InTail, Variant, EpsStep, CharOk, EpsReachIn;
    var x :| EpsReach(code, p, x) && Contributes(code, x, c);
    var n: nat :| EpsReachIn(code, p, x, n);
    ReachNow(code, bounds, now, p, x, n);
    VariantAt(code, bounds, now, x);
    assert EpsReach(now, p, x) && Contributes(now, x, c);
  }

  lemma {:induction false} SameReader(code: Code, bounds: set<int>, now: Code, p: int)
    requires WellFormed(code, bounds) && Variant(code, bounds, now) && p in bounds
    ensures Reader(now, p) == Reader(code, p)
    decreases |code| - p
  {
    hide WellFormed, Decode, Next, Variant, CharOk;
    At(code, bounds, p);
    VariantAt(code, bounds, now, p);
    if Decode(code, p).Test? || Decode(code, p).Mark? { SameReader(code, bounds, now, Next(code, p)); }
  }

  lemma {:induction false} SameStraight(code: Code, bounds: set<int>, now: Code, p: int, q: int)
    requires WellFormed(code, bounds) && Variant(code, bounds, now) && p in bounds
    ensures StraightTo(now, p, q) == StraightTo(code, p, q)
    decreases |code| - p
  {
    hide WellFormed, Decode, Next, Variant, CharOk;
    At(code, bounds, p);
    VariantAt(code, bounds, now, p);
    if p != q && IsPlain(Decode(code, p)) { SameStraight(code, bounds, now, Next(code, p), q); }
  }

  lemma {:induction false} UpdateSound(code: Code, bounds: set<int>, now: Code, q: int)
    requires WellFormed(code, bounds) && Variant(code, bounds, now) && q in bounds && CanUpdate(now, q)
    ensures CanUpdate(code, q) && Decode(code, q) == Decode(now, q)
  {
    hide WellFormed, Decode, Next, Variant, CharOk, FirstChar, Reader, StraightTo;
    At(code, bounds, q);
    VariantAt(code, bounds, now, q);
    At(code, bounds, Head(code, q) - 3);
    SameReader(code, bounds, now, Head(code, q));
    var f := FirstReader(code, q);
    ReaderFacts(code, bounds, Head(code, q), q);
    At(code, bounds, f);
    VariantAt(code, bounds, now, f);
    SameStraight(code, bounds, now, Next(code, f), q);
    LoopExitNotInTail(code, bounds, q);
    forall c: Byte | CharOk(code, f, c) ensures !FirstChar(code, q + 3, c) {
      if FirstChar(code, q + 3, c) { FirstCharNow(code, bounds, now, q + 3, c); }
    }
  }

  // ---- The invariant ------------------------------------------------------------------------------

  /** x is not in the body of any straight loop. */
  ghost predicate Outside(code: Code, bounds: set<int>, x: int) {
    forall q <- bounds :: StraightLoop(code, q) ==> !(Head(code, q) <= x <= q)
  }

  ghost predicate FrameOk(code: Code, bounds: set<int>, f: Frame, txt: Text) {
    f.resume in bounds && Outside(code, bounds, f.resume) && (f.Live? ==> f.text <= |txt|)
  }

  /** The topmost failure point resumes just after the loop closed at q, and if it carries a text
      position the loop body has run from there to here. RegexOwners says that this loop pushed it. */
  ghost predicate OwnFrame(code: Code, q: int, s: State, txt: Text)
    requires StraightLoop(code, q)
  {
    s.stack != []
    && var top := s.stack[|s.stack| - 1];
       && top.resume == q + 3
       && (top.Live? && s.pc <= FirstReader(code, q) ==> s.at == top.text)
       && (top.Live? && FirstReader(code, q) < s.pc ==>
             top.text < s.at && top.text < |txt| && CharOk(code, FirstReader(code, q), txt[top.text]))
  }

  ghost predicate LoopOk(code: Code, q: int, s: State, txt: Text) {
    StraightLoop(code, q) && Head(code, q) <= s.pc <= q ==> OwnFrame(code, q, s, txt)
  }

  ghost predicate Inv(code: Code, bounds: set<int>, s: State, txt: Text) {
    && s.pc in bounds && s.at <= |txt| && Variant(code, bounds, s.code)
    && |s.stack| <= MAX_FAILURES
    && (forall f <- s.stack :: FrameOk(code, bounds, f, txt))
    && (forall q <- bounds :: LoopOk(code, q, s, txt))
  }

  lemma {:induction false} InitialInv(code: Code, bounds: set<int>, now: Code, pos: nat, txt: Text)
    requires WellFormed(code, bounds) && Variant(code, bounds, now) && pos <= |txt|
    ensures Inv(code, bounds, Initial(now, pos), txt)
  {
    hide Decode, Next, Variant, Reader, StraightTo;
    forall q <- bounds ensures LoopOk(code, q, Initial(now, pos), txt) {
      if StraightLoop(code, q) { BodyFacts(code, bounds, q, 0); }
    }
  }

  lemma {:induction false} PlainStepInv(code: Code, bounds: set<int>, s: State, txt: Text, at': nat)
    requires WellFormed(code, bounds) && Inv(code, bounds, s, txt) && IsPlain(Decode(code, s.pc)) && at' <= |txt|
    requires Decode(code, s.pc).Read? ==> s.at < |txt| && at' == s.at + 1 && CharOk(code, s.pc, txt[s.at])
    requires !Decode(code, s.pc).Read? ==> at' == s.at
    ensures Inv(code, bounds, s.(pc := Next(code, s.pc), at := at'), txt)
  {
    hide WellFormed, Decode, Next, Variant, Reader, StraightTo, CharOk, FrameOk;
    At(code, bounds, s.pc);
    var s' := s.(pc := Next(code, s.pc), at := at');
    forall q <- bounds ensures LoopOk(code, q, s', txt) {
      if StraightLoop(code, q) && Head(code, q) <= s'.pc <= q {
        At(code, bounds, q);
        At(code, bounds, Head(code, q) - 3);
        BodyFacts(code, bounds, q, s.pc);
        EntersAtHead(code, bounds, q, s.pc, s'.pc);
        assert LoopOk(code, q, s, txt);
        var f := FirstReader(code, q);
        if s.pc < f { Apart(code, bounds, s.pc, f); }
        if f < s.pc { Apart(code, bounds, f, s.pc); }
      }
    }
  }

  /** No jump but a loop's own leads into a straight loop. */
  lemma {:induction false} JumpOutside(code: Code, bounds: set<int>, x: int)
    requires WellFormed(code, bounds) && x in bounds && IsJump(Decode(code, x)) && !Decode(code, x).DummyJump?
    ensures Decode(code, x).target in bounds && Outside(code, bounds, Decode(code, x).target)
  {
    hide WellFormed, Decode, Next, Reader, StraightTo;
    At(code, bounds, x);
    var y := Decode(code, x).target;
    forall q <- bounds | StraightLoop(code, q) ensures !(Head(code, q) <= y <= q) {
      if Head(code, q) <= y <= q {
        At(code, bounds, q);
        BodyFacts(code, bounds, q, x);
        EntersAtHead(code, bounds, q, x, y);
      }
    }
  }

  lemma {:induction false} JumpStepInv(code: Code, bounds: set<int>, s: State, txt: Text, s': State)
    requires WellFormed(code, bounds) && Inv(code, bounds, s, txt)
    requires Decode(code, s.pc).Jump? || Decode(code, s.pc).StarJump?
    requires s' == s.(pc := Decode(code, s.pc).target)
    ensures Inv(code, bounds, s', txt)
  {
    hide WellFormed, Decode, Next, Variant, Reader, StraightTo, CharOk, FrameOk, OwnFrame;
    JumpOutside(code, bounds, s.pc);
  }

  lemma {:induction false} PushStepInv(code: Code, bounds: set<int>, s: State, txt: Text, f: Frame, s': State)
    requires WellFormed(code, bounds) && Inv(code, bounds, s, txt) && |s.stack| < MAX_FAILURES
    requires match Decode(code, s.pc)
      case FailJump(t) => f == Live(s.at, t) && s' == s.(pc := s.pc + 3, stack := s.stack + [f])
      case DummyJump(t) =>
        && Decode(code, s.pc + 3).FailJump? && f == Dummy(Decode(code, s.pc + 3).target)
        && s' == s.(pc := t, stack := s.stack + [f])
      case _ => false
    ensures Inv(code, bounds, s', txt)
  {
    hide WellFormed, Decode, Next, Variant, Reader, StraightTo, CharOk;
    At(code, bounds, s.pc);
    JumpOutside(code, bounds, if Decode(code, s.pc).FailJump? then s.pc else s.pc + 3);
    forall q <- bounds ensures LoopOk(code, q, s', txt) {
      if StraightLoop(code, q) && Head(code, q) <= s'.pc <= q {
        At(code, bounds, q);
        BodyFacts(code, bounds, q, s.pc);
        EntersAtHead(code, bounds, q, s.pc, s'.pc);
      }
    }
    assert forall g <- s'.stack :: g in s.stack || g == f;
  }

  /** Two straight loops with the same head are the same loop, and a straight loop holds no other. */
  lemma {:induction false} HeadOfOne(code: Code, bounds: set<int>, q: int, l: int)
    requires WellFormed(code, bounds) && q in bounds && l in bounds && StraightLoop(code, q) && StraightLoop(code, l)
    requires Head(code, l) <= Head(code, q) <= l
    ensures l == q
  {
    hide WellFormed, Decode, Next, Reader, StraightTo;
    var h := Head(code, q);
    At(code, bounds, q);
    At(code, bounds, l);
    At(code, bounds, h - 3);
    BodyFacts(code, bounds, l, h - 3);
    BodyFacts(code, bounds, q, h);
    EntersAtHead(code, bounds, l, h - 3, h);
  }

  lemma {:induction false} UpdateStepInv(code: Code, bounds: set<int>, s: State, txt: Text, s': State)
    requires WellFormed(code, bounds) && Inv(code, bounds, s, txt) && StraightLoop(code, s.pc)
    requires s.stack != []
    requires var n := |s.stack| - 1;
      s' == s.(pc := Head(code, s.pc), stack := s.stack[n := Live(s.at, s.stack[n].resume)])
    ensures Inv(code, bounds, s', txt)
  {
    hide WellFormed, Decode, Next, Variant, Reader, StraightTo, CharOk;
    var q, n := s.pc, |s.stack| - 1;
    BodyFacts(code, bounds, q, q);
    assert LoopOk(code, q, s, txt);
    forall l <- bounds ensures LoopOk(code, l, s', txt) {
      if StraightLoop(code, l) && Head(code, l) <= s'.pc <= l { HeadOfOne(code, bounds, q, l); }
    }
    assert s.stack[n] in s.stack;
    assert forall g <- s'.stack :: g in s.stack || g == s'.stack[n];
  }

  lemma {:induction false} BacktrackInv(code: Code, bounds: set<int>, now: Code, stack: seq<Frame>, txt: Text)
    requires WellFormed(code, bounds) && Variant(code, bounds, now) && |stack| <= MAX_FAILURES
    requires forall f <- stack :: FrameOk(code, bounds, f, txt)
    requires Backtrack(now, stack).Running?
    ensures Inv(code, bounds, Backtrack(now, stack).state, txt)
  {
    hide WellFormed, Decode, Next, Variant, Reader, StraightTo, CharOk, OwnFrame;
    var top, rest := stack[|stack| - 1], stack[..|stack| - 1];
    assert top in stack && forall f <- rest :: f in stack;
    if top.Dummy? { BacktrackInv(code, bounds, now, rest, txt); }
  }

  lemma {:induction false} CodeInv(code: Code, bounds: set<int>, s: State, txt: Text, later: Code)
    requires Inv(code, bounds, s, txt) && Variant(code, bounds, later)
    ensures Inv(code, bounds, s.(code := later), txt)
  {
    hide Decode, Next, Variant, Reader, StraightTo, CharOk, FrameOk;
    var s' := s.(code := later);
    forall q <- bounds ensures LoopOk(code, q, s', txt) { assert LoopOk(code, q, s, txt); }
  }

  /** The invariant is kept by every step, and no step aborts. */
  lemma {:induction false} StepInv(code: Code, bounds: set<int>, opt: bool, s: State, txt: Text)
    requires WellFormed(code, bounds) && Inv(code, bounds, s, txt)
    ensures match Step(opt, s, txt)
      case Running(s') => Inv(code, bounds, s', txt)
      case Halted(o, later) => o != Aborted && Variant(code, bounds, later)
  {
    hide WellFormed, Decode, Next, Variant, Reader, StraightTo, CharOk, FrameOk, OwnFrame, TestOk, CanUpdate, Patch,
      Backtrack;
    var now := s.code;
    At(code, bounds, s.pc);
    VariantAt(code, bounds, now, s.pc);
    BacktrackHalts(now, s.stack);
    if Backtrack(now, s.stack).Running? { BacktrackInv(code, bounds, now, s.stack, txt); }
    match Decode(now, s.pc)
    case End =>
    case Bad =>
    case Read =>
      if s.at < |txt| && CharOk(now, s.pc, txt[s.at]) { PlainStepInv(code, bounds, s, txt, s.at + 1); }
    case Test(op) =>
      if TestOk(op, txt, s.at) { PlainStepInv(code, bounds, s, txt, s.at); }
    case Mark => PlainStepInv(code, bounds, s, txt, s.at);
    case Jump(t) => JumpStepInv(code, bounds, s, txt, s.(pc := t));
    case StarJump(t) => StarStepInv(code, bounds, opt, s, txt);
    case UpdateJump(t) => UpdateJumpInv(code, bounds, s, txt);
    case FailJump(t) =>
      if |s.stack| < MAX_FAILURES {
        var f := Live(s.at, t);
        PushStepInv(code, bounds, s, txt, f, s.(pc := s.pc + 3, stack := s.stack + [f]));
      }
    case DummyJump(t) =>
      VariantAt(code, bounds, now, s.pc + 3);
      if |s.stack| < MAX_FAILURES {
        var f := Dummy(Decode(code, s.pc + 3).target);
        PushStepInv(code, bounds, s, txt, f, s.(pc := t, stack := s.stack + [f]));
      }
  }

  lemma {:induction false} BacktrackHalts(now: Code, stack: seq<Frame>)
    ensures match Backtrack(now, stack)
      case Halted(o, later) => o == NoMatch && later == now
      case Running(s) => s.code == now
    decreases |stack|
  {
    if stack != [] && stack[|stack| - 1].Dummy? { BacktrackHalts(now, stack[..|stack| - 1]); }
  }

  /** Where an updating jump runs, the failure stack holds on top a failure point that resumes just after
      that loop, and moving it keeps the invariant. */
  lemma {:induction false} UpdateJumpInv(code: Code, bounds: set<int>, s: State, txt: Text)
    requires WellFormed(code, bounds) && Inv(code, bounds, s, txt) && CanUpdate(code, s.pc)
    ensures s.stack != [] && s.stack[|s.stack| - 1].resume == s.pc + 3
    ensures Update(s, Head(code, s.pc)).Running? && Inv(code, bounds, Update(s, Head(code, s.pc)).state, txt)
  {
    hide WellFormed, Decode, Next, Variant, Reader, StraightTo, CharOk, FrameOk, TestOk, FirstChar;
    assert LoopOk(code, s.pc, s, txt);
    BodyFacts(code, bounds, s.pc, s.pc);
    UpdateStepInv(code, bounds, s, txt, Update(s, Head(code, s.pc)).state);
  }

  lemma {:induction false} StarStepInv(code: Code, bounds: set<int>, opt: bool, s: State, txt: Text)
    requires WellFormed(code, bounds) && Inv(code, bounds, s, txt) && Decode(s.code, s.pc).StarJump?
    ensures Step(opt, s, txt).Running? && Inv(code, bounds, Step(opt, s, txt).state, txt)
  {
    hide WellFormed, Decode, Next, Variant, Reader, StraightTo, CharOk, FrameOk, OwnFrame, TestOk, CanUpdate, Patch,
      Backtrack;
    var q, t := s.pc, Decode(s.code, s.pc).target;
    if opt && CanUpdate(s.code, q) {
      UpdateSound(code, bounds, s.code, q);
      MakeUpdateJump(code, bounds, s.code, q);
      var later := Patch(s.code, q, CUPDATE_FAILURE_JUMP, t - q);
      CodeInv(code, bounds, s, txt, later);
      UpdateJumpInv(code, bounds, s.(code := later), txt);
    } else {
      MakeNormalJump(code, bounds, s.code, q);
      CodeInv(code, bounds, s, txt, s.code[q := CJUMP]);
    }
  }
}
