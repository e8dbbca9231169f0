/** Every run of the matcher answers correctly: a match it reports is one, and when it reports none
    there is none, even though it drops failure points and rewrites its program on the way. */
module RegexCorrect {
  import opened RegexCode
  import opened RegexAst
  import opened RegexWellFormed
  import opened RegexMeaning
  import opened RegexMachine
  import opened RegexLoops
  import opened RegexRuns

  // ---- When dropping a failure point is safe --------------------------------------------------

  /** Zero-width steps that may succeed before the end of the text. */
  ghost predicate LooseStep(code: Code, p: int, y: int) {
    EpsStep(code, p, y) && (Decode(code, p).Test? ==> Decode(code, p).op != CENDBUF)
  }

  /** Zero-width steps that succeed at every position of every text. */
  ghost predicate FreeStep(code: Code, p: int, y: int) {
    EpsStep(code, p, y) && !Decode(code, p).Test?
  }

  ghost predicate LooseIn(code: Code, p: int, x: int, n: nat)
    decreases n
  {
    if n == 0 then p == x else exists y :: LooseStep(code, p, y) && LooseIn(code, y, x, n - 1)
  }

  ghost predicate FreeIn(code: Code, p: int, x: int, n: nat)
    decreases n
  {
    if n == 0 then p == x else exists y :: FreeStep(code, p, y) && FreeIn(code, y, x, n - 1)
  }

  ghost predicate Loose(code: Code, p: int, x: int) {
    exists n: nat :: LooseIn(code, p, x, n)
  }

  ghost predicate Free(code: Code, p: int, x: int) {
    exists n: nat :: FreeIn(code, p, x, n)
  }

  /** If Cend can be reached without consuming anything from just after the loop, then it can be
      reached without a test of the position. */
  ghost predicate SafeExit(code: Code, q: int) {
    Loose(code, q + 3, |code| - 1) ==> Free(code, q + 3, |code| - 1)
  }

  /** Every loop whose failure point may be moved is followed by a safe exit. */
  ghost predicate LoopsSafe(code: Code, bounds: set<int>) {
    forall q <- bounds :: CanUpdate(code, q) ==> SafeExit(code, q)
  }

  lemma {:induction false} FirstCharBack(code: Code, p: int, y: int, c: Byte)
    requires EpsStep(code, p, y) && FirstChar(code, y, c)
    ensures FirstChar(code, p, c)
  {
    hide Decode, Next, CharOk, Contributes, EpsStep;
    var x :| EpsReach(code, y, x) && Contributes(code, x, c);
    var n: nat :| EpsReachIn(code, y, x, n);
    assert EpsReachIn(code, p, x, n + 1);
  }

  lemma {:induction false} FirstCharHere(code: Code, p: int, c: Byte)
    requires Contributes(code, p, c)
    ensures FirstChar(code, p, c)
  {
    assert EpsReachIn(code, p, p, 0);
  }

  /** If the next character cannot be the first one after p, acceptance from p consumes nothing. */
  lemma {:induction false} NothingConsumed(code: Code, bounds: set<int>, txt: Text, p: int, i: nat, k: nat, n: nat)
    returns (m: nat)
    requires WellFormed(code, bounds) && p in bounds && i < |txt|
    requires AcceptsIn(code, txt, p, i, k, n) && !FirstChar(code, p, txt[i])
    ensures LooseIn(code, p, |code| - 1, m)
    decreases n
  {
    hide WellFormed, Decode, Next, CharOk, FirstChar, TestOk;
    At(code, bounds, p);
    m := 0;
    var y := p;
    match Decode(code, p) {
      case End => return;
      case Read => FirstCharHere(code, p, txt[i]); assert false;
      case Test(op) =>
        TestBeforeEnd(op, txt, i);
        if op == CEOL { FirstCharHere(code, p, txt[i]); }
        y := Next(code, p);
      case Mark => y := Next(code, p);
      case FailJump(t) => y := if AcceptsIn(code, txt, p + 3, i, k, n - 1) then p + 3 else t;
      case Jump(t) => y := t;
      case StarJump(t) => y := t;
      case DummyJump(t) => y := t;
    }
    if FirstChar(code, y, txt[i]) { FirstCharBack(code, p, y, txt[i]); }
    m := NothingConsumed(code, bounds, txt, y, i, k, n - 1);
    assert LooseStep(code, p, y);
    m := m + 1;
  }

  lemma {:induction false} TestBeforeEnd(op: TestOp, txt: Text, i: nat)
    requires i < |txt|
    ensures op == CENDBUF ==> !TestOk(op, txt, i)
    ensures op == CEOL ==> (TestOk(op, txt, i) <==> txt[i] == NEWLINE)
  {
  }

  lemma {:induction false} FreeAccepts(code: Code, p: int, n: nat, txt: Text, i: nat)
    requires |code| > 0 && Decode(code, |code| - 1).End? && i <= |txt| && FreeIn(code, p, |code| - 1, n)
    ensures Accepts(code, txt, p, i, i)
    decreases n
  {
    hide Next, CharOk, TestOk, Accepts, Decode;
    if n > 0 {
      var y :| FreeStep(code, p, y) && FreeIn(code, y, |code| - 1, n - 1);
      FreeAccepts(code, y, n - 1, txt, i);
    }
    AcceptsBack(code, txt, p, i, i);
  }

  /** What an updating jump relies on: if the failure point it moves could still have led to a
      match, then so can the moved one. */
  lemma {:induction false} DropSafe(code: Code, bounds: set<int>, txt: Text, q: int, from: nat, to: nat, k: nat)
    requires WellFormed(code, bounds) && q in bounds && CanUpdate(code, q) && SafeExit(code, q)
    requires from < |txt| && to <= |txt| && CharOk(code, FirstReader(code, q), txt[from])
    requires Accepts(code, txt, q + 3, from, k)
    ensures Free(code, q + 3, |code| - 1)
    ensures Accepts(code, txt, q + 3, to, to)
  {
    hide WellFormed, Decode, Next, CharOk, FirstChar, Reader, StraightTo, LooseIn, FreeIn;
    BodyFacts(code, bounds, q, q);
    var n: nat :| AcceptsIn(code, txt, q + 3, from, k, n);
    var m := NothingConsumed(code, bounds, txt, q + 3, from, k, n);
    var l: nat :| FreeIn(code, q + 3, |code| - 1, l);
    LastIsEnd(code, bounds);
    FreeAccepts(code, q + 3, l, txt, to);
  }

  lemma {:induction false} LastIsEnd(code: Code, bounds: set<int>)
    requires WellFormed(code, bounds)
    ensures |code| > 0 && |code| - 1 in bounds && Decode(code, |code| - 1).End?
  {
    hide Decode, Next, GoodAt, Respects;
  }

  // ---- What a state still has to offer ------------------------------------------------------------

  ghost predicate FrameOffers(code: Code, f: Frame, txt: Text, k: nat) {
    f.Live? && f.text <= |txt| && Accepts(code, txt, f.resume, f.text, k)
  }

  /** The plain program accepts at k from the current position or from a failure point. */
  ghost predicate Offers(code: Code, s: State, txt: Text, k: nat)
    requires s.at <= |txt|
  {
    Accepts(code, txt, s.pc, s.at, k) || exists f <- s.stack :: FrameOffers(code, f, txt, k)
  }

  lemma {:induction false} BacktrackOffers(code: Code, now: Code, stack: seq<Frame>, txt: Text, k: nat)
    requires forall f <- stack :: f.Live? ==> f.text <= |txt|
    ensures match Backtrack(now, stack)
      case Halted(_, _) => !exists f <- stack :: FrameOffers(code, f, txt, k)
      case Running(s) =>
        s.at <= |txt| && (Offers(code, s, txt, k) <==> exists f <- stack :: FrameOffers(code, f, txt, k))
  {
    hide Accepts;
    if stack != [] {
      var top, rest := stack[|stack| - 1], stack[..|stack| - 1];
      assert top in stack && forall f <- stack :: f in rest || f == top;
      if top.Dummy? { BacktrackOffers(code, now, rest, txt, k); }
    }
  }

  /** A plain step forward changes nothing about what is on offer. */
  lemma {:induction false} SameOffers(code: Code, s: State, s': State, txt: Text, k: nat)
    requires s.at <= |txt| && s'.at <= |txt| && s'.stack == s.stack
    requires Accepts(code, txt, s'.pc, s'.at, k) <==> Accepts(code, txt, s.pc, s.at, k)
    ensures Offers(code, s', txt, k) <==> Offers(code, s, txt, k)
  {
    hide Accepts;
  }

  lemma {:induction false} PushOffers(code: Code, s: State, s': State, f: Frame, txt: Text, k: nat)
    requires s.at <= |txt| && s'.at <= |txt| && s'.stack == s.stack + [f]
    requires (Accepts(code, txt, s'.pc, s'.at, k) || FrameOffers(code, f, txt, k))
      <==> Accepts(code, txt, s.pc, s.at, k)
    ensures Offers(code, s', txt, k) <==> Offers(code, s, txt, k)
  {
    hide Accepts, FrameOffers;
    assert f in s'.stack && forall g <- s.stack :: g in s'.stack;
  }

  // ---- One step ------------------------------------------------------------------------------------

  /** Moving the loop's failure point and going back to the head of its body: what is on offer
      afterwards was on offer before, and something still is if anything was. */
  lemma {:induction false} UpdateOffers(code: Code, bounds: set<int>, s: State, txt: Text, k: nat)
    requires WellFormed(code, bounds) && Inv(code, bounds, s, txt) && CanUpdate(code, s.pc)
    ensures Update(s, Head(code, s.pc)).Running?
    ensures var s' := Update(s, Head(code, s.pc)).state;
      && (Offers(code, s', txt, k) ==> Offers(code, s, txt, k))
      && (SafeExit(code, s.pc) && Offers(code, s, txt, k) ==> Offers(code, s', txt, k) || Offers(code, s', txt, s.at))
  {
    hide WellFormed, Decode, Next, Variant, Reader, StraightTo, CharOk, FrameOk, FirstChar, SafeExit, Accepts;
    var q := s.pc;
    var h, n := Head(code, q), |s.stack| - 1;
    UpdateJumpInv(code, bounds, s, txt);
    var s' := Update(s, h).state;
    var top, moved := s.stack[n], Live(s.at, q + 3);
    BodyFacts(code, bounds, q, q);
    At(code, bounds, q);
    AcceptsStep(code, txt, q, s.at, k);
    AcceptsStep(code, txt, h - 3, s.at, k);
    assert moved == s'.stack[n] && top in s.stack && moved in s'.stack;
    assert forall f <- s'.stack :: f in s.stack || f == moved;
    forall f <- s.stack ensures f in s'.stack || f == top {
      var j :| 0 <= j < |s.stack| && s.stack[j] == f;
      if j < n { assert s'.stack[j] == f; }
    }
    assert LoopOk(code, q, s, txt);
    if SafeExit(code, q) && FrameOffers(code, top, txt, k) {
      DropSafe(code, bounds, txt, q, top.text, s.at, k);
      assert FrameOffers(code, moved, txt, s.at);
    }
  }

  /** The effect of one step on what is on offer. */
  lemma {:induction false} StepOffers(code: Code, bounds: set<int>, opt: bool, s: State, txt: Text, k: nat)
    requires WellFormed(code, bounds) && Inv(code, bounds, s, txt)
    ensures match Step(opt, s, txt)
      case Running(s') =>
        && s'.at <= |txt|
        && (Offers(code, s', txt, k) ==> Offers(code, s, txt, k))
        && (LoopsSafe(code, bounds) && Offers(code, s, txt, k) ==>
          Offers(code, s', txt, k) || Offers(code, s', txt, s.at))
      case Halted(o, _) =>
        && (o == Matched(k) ==> Offers(code, s, txt, k))
        && (o == NoMatch ==> !Offers(code, s, txt, k))
  {
    hide WellFormed, Decode, Next, Variant, Reader, StraightTo, CharOk, FrameOk, OwnFrame, TestOk, CanUpdate, Patch,
      Backtrack, Accepts, SafeExit, Offers, LoopOk;
    StepInv(code, bounds, opt, s, txt);
    var now := s.code;
    At(code, bounds, s.pc);
    VariantAt(code, bounds, now, s.pc);
    AcceptsStep(code, txt, s.pc, s.at, k);
    FailOffers(code, bounds, s, txt, k);
    match Decode(now, s.pc)
    case End => if s.at == k { NowOffers(code, s, txt, k); }
    case Bad =>
    case Read =>
      if s.at < |txt| && CharOk(now, s.pc, txt[s.at]) {
        SameOffers(code, s, s.(pc := Next(now, s.pc), at := s.at + 1), txt, k);
      }
    case Test(op) =>
      if TestOk(op, txt, s.at) { SameOffers(code, s, s.(pc := Next(now, s.pc)), txt, k); }
    case Mark => SameOffers(code, s, s.(pc := Next(now, s.pc)), txt, k);
    case Jump(t) => SameOffers(code, s, s.(pc := t), txt, k);
    case StarJump(t) => StarOffers(code, bounds, opt, s, txt, k);
    case UpdateJump(t) => UpdateOffers(code, bounds, s, txt, k);
    case FailJump(t) =>
      var f := Live(s.at, t);
      PushOffers(code, s, s.(pc := s.pc + 3, stack := s.stack + [f]), f, txt, k);
    case DummyJump(t) =>
      VariantAt(code, bounds, now, s.pc + 3);
      var f := Dummy(Decode(code, s.pc + 3).target);
      PushOffers(code, s, s.(pc := t, stack := s.stack + [f]), f, txt, k);
  }

  lemma {:induction false} NowOffers(code: Code, s: State, txt: Text, k: nat)
    requires s.at <= |txt| && Accepts(code, txt, s.pc, s.at, k)
    ensures Offers(code, s, txt, k)
  {
  }

  /** Failing at the current position leaves exactly what the failure points offer. */
  lemma {:induction false} FailOffers(code: Code, bounds: set<int>, s: State, txt: Text, k: nat)
    requires Inv(code, bounds, s, txt)
    ensures !Accepts(code, txt, s.pc, s.at, k) ==>
      match Backtrack(s.code, s.stack)
      case Halted(o, _) => o == NoMatch && !Offers(code, s, txt, k)
      case Running(s') => s'.at <= |txt| && (Offers(code, s', txt, k) <==> Offers(code, s, txt, k))
  {
    hide Accepts, Variant, LoopOk, Outside, Backtrack;
    BacktrackOffers(code, s.code, s.stack, txt, k);
    BacktrackHalts(s.code, s.stack);
  }

  lemma {:induction false} StarOffers(code: Code, bounds: set<int>, opt: bool, s: State, txt: Text, k: nat)
    requires WellFormed(code, bounds) && Inv(code, bounds, s, txt) && Decode(s.code, s.pc).StarJump?
    ensures Step(opt, s, txt).Running?
    ensures var s' := Step(opt, s, txt).state;
      && s'.at <= |txt|
      && (Offers(code, s', txt, k) ==> Offers(code, s, txt, k))
      && (LoopsSafe(code, bounds) && Offers(code, s, txt, k) ==>
        Offers(code, s', txt, k) || Offers(code, s', txt, s.at))
  {
    hide WellFormed, Decode, Next, Variant, Reader, StraightTo, CharOk, FrameOk, OwnFrame, TestOk, CanUpdate, Patch,
      Backtrack, Accepts, SafeExit, Offers;
    var q, t := s.pc, Decode(s.code, s.pc).target;
    StarStepInv(code, bounds, opt, s, txt);
    if opt && CanUpdate(s.code, q) {
      UpdateSound(code, bounds, s.code, q);
      MakeUpdateJump(code, bounds, s.code, q);
      var later := Patch(s.code, q, CUPDATE_FAILURE_JUMP, t - q);
      var r := s.(code := later);
      CodeInv(code, bounds, s, txt, later);
      UpdateOffers(code, bounds, r, txt, k);
      SameOffers(code, s, r, txt, k);
    } else {
      SameOffers(code, s, Step(opt, s, txt).state, txt, k);
    }
  }

  // ---- Whole runs ----------------------------------------------------------------------------------

  /** A reported match is on offer. */
  lemma {:induction false} RunSound(code: Code, bounds: set<int>, opt: bool, s: State, txt: Text, n: nat, e: nat,
                                    later: Code)
    requires WellFormed(code, bounds) && Inv(code, bounds, s, txt) && RunsTo(opt, s, txt, n, Matched(e), later)
    ensures Offers(code, s, txt, e)
    decreases n
  {
    hide WellFormed, Variant, FrameOk, LoopOk, Step, Offers;
    StepOffers(code, bounds, opt, s, txt, e);
    StepInv(code, bounds, opt, s, txt);
    match Step(opt, s, txt)
    case Halted(_, _) =>
    case Running(s') => RunSound(code, bounds, opt, s', txt, n - 1, e, later);
  }

  /** A run that finds nothing had nothing on offer. */
  lemma {:induction false} RunComplete(code: Code, bounds: set<int>, opt: bool, s: State, txt: Text, n: nat,
                                       later: Code, k: nat)
    requires WellFormed(code, bounds) && Inv(code, bounds, s, txt) && RunsTo(opt, s, txt, n, NoMatch, later)
    requires LoopsSafe(code, bounds)
    ensures !Offers(code, s, txt, k)
    decreases n
  {
    hide WellFormed, Variant, FrameOk, LoopOk, Step, Offers, LoopsSafe;
    StepOffers(code, bounds, opt, s, txt, k);
    StepInv(code, bounds, opt, s, txt);
    match Step(opt, s, txt)
    case Halted(_, _) =>
    case Running(s') =>
      RunComplete(code, bounds, opt, s', txt, n - 1, later, k);
      RunComplete(code, bounds, opt, s', txt, n - 1, later, s.at);
  }

  /** A run leaves a variant of the program it started from, and never aborts. */
  lemma {:induction false} RunVariant(code: Code, bounds: set<int>, opt: bool, s: State, txt: Text, n: nat,
                                      o: Outcome, later: Code)
    requires WellFormed(code, bounds) && Inv(code, bounds, s, txt) && RunsTo(opt, s, txt, n, o, later)
    ensures Variant(code, bounds, later) && o != Aborted
    decreases n
  {
    hide WellFormed, Variant, FrameOk, LoopOk, Step;
    StepInv(code, bounds, opt, s, txt);
    match Step(opt, s, txt)
    case Halted(_, _) =>
    case Running(s') => RunVariant(code, bounds, opt, s', txt, n - 1, o, later);
  }
}
