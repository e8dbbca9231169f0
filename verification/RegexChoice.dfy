/** Which match is reported, where there are several: the first in the order in which the alternatives are
    tried. The run-time rewriting of loops does not change it. */
module RegexChoice {
  import opened RegexCode
  import opened RegexAst
  import opened RegexWellFormed
  import opened RegexMeaning
  import opened RegexMachine
  import opened RegexLoops
  import opened RegexRuns
  import opened RegexCorrect
  import opened RegexEngine

  // ---- What the program chooses -----------------------------------------------------------------------

  datatype Choice = Yes(end: nat) | No

  /** Within n steps the program, tried in order from p at text position i, ends or fails. At a failure jump
      it first goes on, and only if that fails jumps. */
  ghost predicate PicksIn(code: Code, txt: Text, p: int, i: nat, v: Choice, n: nat)
    requires i <= |txt|
    decreases n
  {
    match Decode(code, p)
    case End => v == Yes(i)
    case Read =>
      n > 0 && if i < |txt| && CharOk(code, p, txt[i]) then PicksIn(code, txt, Next(code, p), i + 1, v, n - 1)
               else v == No
    case Test(op) => n > 0 && if TestOk(op, txt, i) then PicksIn(code, txt, Next(code, p), i, v, n - 1) else v == No
    case Mark => n > 0 && PicksIn(code, txt, Next(code, p), i, v, n - 1)
    case Jump(t) => n > 0 && PicksIn(code, txt, t, i, v, n - 1)
    case StarJump(t) => n > 0 && PicksIn(code, txt, t, i, v, n - 1)
    case UpdateJump(t) => n > 0 && PicksIn(code, txt, t, i, v, n - 1)
    case DummyJump(t) => n > 0 && PicksIn(code, txt, t, i, v, n - 1)
    case FailJump(t) =>
      && n > 0
      && (|| (v.Yes? && PicksIn(code, txt, p + 3, i, v, n - 1))
          || (PicksIn(code, txt, p + 3, i, No, n - 1) && PicksIn(code, txt, t, i, v, n - 1)))
    case Bad => false
  }

  ghost predicate Picks(code: Code, txt: Text, p: int, i: nat, v: Choice)
    requires i <= |txt|
  {
    exists n: nat :: PicksIn(code, txt, p, i, v, n)
  }

  lemma {:induction false} PicksLonger(code: Code, txt: Text, p: int, i: nat, v: Choice, n: nat, m: nat)
    requires i <= |txt| && PicksIn(code, txt, p, i, v, n) && n <= m
    ensures PicksIn(code, txt, p, i, v, m)
    decreases n
  {
    hide Decode, Next, CharOk, TestOk;
    match Decode(code, p)
    case End =>
    case Read =>
      if i < |txt| && CharOk(code, p, txt[i]) { PicksLonger(code, txt, Next(code, p), i + 1, v, n - 1, m - 1); }
    case Test(op) => if TestOk(op, txt, i) { PicksLonger(code, txt, Next(code, p), i, v, n - 1, m - 1); }
    case Mark => PicksLonger(code, txt, Next(code, p), i, v, n - 1, m - 1);
    case FailJump(t) =>
      if v.Yes? && PicksIn(code, txt, p + 3, i, v, n - 1) {
        PicksLonger(code, txt, p + 3, i, v, n - 1, m - 1);
      } else {
        PicksLonger(code, txt, p + 3, i, No, n - 1, m - 1);
        PicksLonger(code, txt, t, i, v, n - 1, m - 1);
      }
    case Jump(t) => PicksLonger(code, txt, t, i, v, n - 1, m - 1);
    case StarJump(t) => PicksLonger(code, txt, t, i, v, n - 1, m - 1);
    case UpdateJump(t) => PicksLonger(code, txt, t, i, v, n - 1, m - 1);
    case DummyJump(t) => PicksLonger(code, txt, t, i, v, n - 1, m - 1);
  }

  /** The first of two attempts, or the second if the first fails. */
  ghost predicate Either(first: bool, none: bool, second: bool, v: Choice) {
    (v.Yes? && first) || (none && second)
  }

  ghost predicate StepPicks(code: Code, txt: Text, p: int, i: nat, v: Choice)
    requires i <= |txt|
  {
    match Decode(code, p)
    case End => v == Yes(i)
    case Read => if i < |txt| && CharOk(code, p, txt[i]) then Picks(code, txt, Next(code, p), i + 1, v) else v == No
    case Test(op) => if TestOk(op, txt, i) then Picks(code, txt, Next(code, p), i, v) else v == No
    case Mark => Picks(code, txt, Next(code, p), i, v)
    case FailJump(t) =>
      Either(Picks(code, txt, p + 3, i, v), Picks(code, txt, p + 3, i, No), Picks(code, txt, t, i, v), v)
    case Bad => false
    case jump => Picks(code, txt, jump.target, i, v)
  }

  lemma {:induction false} PicksBack(code: Code, txt: Text, p: int, i: nat, v: Choice)
    requires i <= |txt| && StepPicks(code, txt, p, i, v)
    ensures Picks(code, txt, p, i, v)
  {
    hide Decode, Next, CharOk, TestOk;
    var q, j := p, i;
    match Decode(code, p) {
      case End => assert PicksIn(code, txt, p, i, v, 0); return;
      case Read =>
        if !(i < |txt| && CharOk(code, p, txt[i])) { assert PicksIn(code, txt, p, i, v, 1); return; }
        q, j := Next(code, p), i + 1;
      case Test(op) =>
        if !TestOk(op, txt, i) { assert PicksIn(code, txt, p, i, v, 1); return; }
        q := Next(code, p);
      case Mark => q := Next(code, p);
      case FailJump(t) => ForkBack(code, txt, p, i, v); return;
      case Bad =>
      case jump => q := Decode(code, p).target;
    }
    var n: nat :| PicksIn(code, txt, q, j, v, n);
    assert PicksIn(code, txt, p, i, v, n + 1);
  }

  lemma {:induction false} ForkBack(code: Code, txt: Text, p: int, i: nat, v: Choice)
    requires i <= |txt| && Decode(code, p).FailJump? && StepPicks(code, txt, p, i, v)
    ensures Picks(code, txt, p, i, v)
  {
    hide Decode, Next, CharOk, TestOk;
    var t := Decode(code, p).target;
    if v.Yes? && Picks(code, txt, p + 3, i, v) {
      var n: nat :| PicksIn(code, txt, p + 3, i, v, n);
      assert PicksIn(code, txt, p, i, v, n + 1);
    } else {
      var n: nat :| PicksIn(code, txt, p + 3, i, No, n);
      var m: nat :| PicksIn(code, txt, t, i, v, m);
      var l := if n < m then m else n;
      PicksLonger(code, txt, p + 3, i, No, n, l);
      PicksLonger(code, txt, t, i, v, m, l);
      assert PicksIn(code, txt, p, i, v, l + 1);
    }
  }

  /** A choice is one step and a choice after it. */
  lemma {:induction false} PicksStep(code: Code, txt: Text, p: int, i: nat, v: Choice)
    requires i <= |txt|
    ensures Picks(code, txt, p, i, v) <==> StepPicks(code, txt, p, i, v)
  {
    hide Decode, Next, CharOk, TestOk;
    if StepPicks(code, txt, p, i, v) { PicksBack(code, txt, p, i, v); }
    if Picks(code, txt, p, i, v) {
      var n: nat :| PicksIn(code, txt, p, i, v, n);
      match Decode(code, p)
      case End =>
      case Read => assert i < |txt| && CharOk(code, p, txt[i]) ==> PicksIn(code, txt, Next(code, p), i + 1, v, n - 1);
      case Test(op) => assert TestOk(op, txt, i) ==> PicksIn(code, txt, Next(code, p), i, v, n - 1);
      case Mark => assert PicksIn(code, txt, Next(code, p), i, v, n - 1);
      case FailJump(t) =>
        assert (v.Yes? && PicksIn(code, txt, p + 3, i, v, n - 1))
          || (PicksIn(code, txt, p + 3, i, No, n - 1) && PicksIn(code, txt, t, i, v, n - 1));
      case Jump(t) => assert PicksIn(code, txt, t, i, v, n - 1);
      case StarJump(t) => assert PicksIn(code, txt, t, i, v, n - 1);
      case UpdateJump(t) => assert PicksIn(code, txt, t, i, v, n - 1);
      case DummyJump(t) => assert PicksIn(code, txt, t, i, v, n - 1);
    }
  }

  /** What is chosen is accepted, and if nothing is, nothing is accepted. */
  lemma {:induction false} PicksAccepts(code: Code, txt: Text, p: int, i: nat, v: Choice, n: nat)
    requires i <= |txt| && PicksIn(code, txt, p, i, v, n)
    ensures v.Yes? ==> Accepts(code, txt, p, i, v.end)
    ensures v.No? ==> forall k: nat :: !Accepts(code, txt, p, i, k)
    decreases n
  {
    hide Decode, Next, CharOk, TestOk, Accepts;
    forall k: nat ensures Accepts(code, txt, p, i, k) <==> StepAccepts(code, txt, p, i, k) {
      AcceptsStep(code, txt, p, i, k);
    }
    match Decode(code, p)
    case End =>
    case Read =>
      if i < |txt| && CharOk(code, p, txt[i]) { PicksAccepts(code, txt, Next(code, p), i + 1, v, n - 1); }
    case Test(op) => if TestOk(op, txt, i) { PicksAccepts(code, txt, Next(code, p), i, v, n - 1); }
    case Mark => PicksAccepts(code, txt, Next(code, p), i, v, n - 1);
    case FailJump(t) =>
      if v.Yes? && PicksIn(code, txt, p + 3, i, v, n - 1) {
        PicksAccepts(code, txt, p + 3, i, v, n - 1);
      } else {
        PicksAccepts(code, txt, p + 3, i, No, n - 1);
        PicksAccepts(code, txt, t, i, v, n - 1);
      }
    case Jump(t) => PicksAccepts(code, txt, t, i, v, n - 1);
    case StarJump(t) => PicksAccepts(code, txt, t, i, v, n - 1);
    case UpdateJump(t) => PicksAccepts(code, txt, t, i, v, n - 1);
    case DummyJump(t) => PicksAccepts(code, txt, t, i, v, n - 1);
  }

  // ---- What a state still has to choose ---------------------------------------------------------------

  /** The failure points, tried from the top of the stack. */
  ghost predicate StackPicks(code: Code, stack: seq<Frame>, txt: Text, v: Choice)
    decreases |stack|
  {
    if stack == [] then v == No
    else
      var top, rest := stack[|stack| - 1], stack[..|stack| - 1];
      if top.Dummy? then StackPicks(code, rest, txt, v)
      else
        && top.text <= |txt|
        && Either(Picks(code, txt, top.resume, top.text, v), Picks(code, txt, top.resume, top.text, No),
                  StackPicks(code, rest, txt, v), v)
  }

  ghost predicate StatePicks(code: Code, s: State, txt: Text, v: Choice)
    requires s.at <= |txt|
  {
    Either(Picks(code, txt, s.pc, s.at, v), Picks(code, txt, s.pc, s.at, No), StackPicks(code, s.stack, txt, v), v)
  }

  lemma {:induction false} BacktrackPicks(code: Code, now: Code, stack: seq<Frame>, txt: Text, v: Choice)
    requires StackPicks(code, stack, txt, v)
    ensures match Backtrack(now, stack)
      case Halted(o, _) => o == NoMatch && v == No
      case Running(s) => s.at <= |txt| && StatePicks(code, s, txt, v)
    decreases |stack|
  {
    hide Picks;
    if stack != [] && stack[|stack| - 1].Dummy? { BacktrackPicks(code, now, stack[..|stack| - 1], txt, v); }
  }

  /** Failing here leaves the choice to the failure points. */
  lemma {:induction false} FailPicks(code: Code, s: State, txt: Text, v: Choice)
    requires s.at <= |txt| && StatePicks(code, s, txt, v)
    requires v.Yes? ==> !Picks(code, txt, s.pc, s.at, v)
    ensures match Backtrack(s.code, s.stack)
      case Halted(o, _) => o == NoMatch && v == No
      case Running(s') => s'.at <= |txt| && StatePicks(code, s', txt, v)
  {
    hide Picks, StackPicks, Backtrack;
    BacktrackPicks(code, s.code, s.stack, txt, v);
  }

  lemma {:induction false} SamePicks(code: Code, s: State, s': State, txt: Text, v: Choice)
    requires s.at <= |txt| && s'.at <= |txt| && s'.stack == s.stack && StatePicks(code, s, txt, v)
    requires forall w :: Picks(code, txt, s.pc, s.at, w) ==> Picks(code, txt, s'.pc, s'.at, w)
    ensures StatePicks(code, s', txt, v)
  {
    hide Picks, StackPicks;
  }

  lemma {:induction false} PushPicks(code: Code, s: State, s': State, f: Frame, txt: Text, v: Choice)
    requires s.at <= |txt| && s'.at <= |txt| && s'.stack == s.stack + [f] && StatePicks(code, s, txt, v)
    requires f.Dummy? ==> forall w :: Picks(code, txt, s.pc, s.at, w) ==> Picks(code, txt, s'.pc, s'.at, w)
    requires f.Live? ==> f.text <= |txt| && forall w :: Picks(code, txt, s.pc, s.at, w) ==>
      Either(Picks(code, txt, s'.pc, s'.at, w), Picks(code, txt, s'.pc, s'.at, No),
             Picks(code, txt, f.resume, f.text, w), w)
    ensures StatePicks(code, s', txt, v)
  {
    hide Picks;
    assert s'.stack[..|s.stack|] == s.stack;
  }

  lemma {:induction false} StackTop(code: Code, stack: seq<Frame>, txt: Text, v: Choice)
    requires stack != []
    ensures var top, rest := stack[|stack| - 1], stack[..|stack| - 1];
      StackPicks(code, stack, txt, v) <==>
        if top.Dummy? then StackPicks(code, rest, txt, v)
        else
          && top.text <= |txt|
          && Either(Picks(code, txt, top.resume, top.text, v), Picks(code, txt, top.resume, top.text, No),
                    StackPicks(code, rest, txt, v), v)
  {
    hide Picks, Either;
  }

  /** Had the exit of a loop been taken from one position, it is taken from any other, if it is safe. */
  lemma {:induction false} ExitTaken(code: Code, bounds: set<int>, txt: Text, q: int, from: nat, to: nat, w: Choice)
    requires WellFormed(code, bounds) && q in bounds && CanUpdate(code, q) && SafeExit(code, q)
    requires from < |txt| && to <= |txt| && CharOk(code, FirstReader(code, q), txt[from])
    requires w.Yes? && Picks(code, txt, q + 3, from, w)
    ensures !Picks(code, txt, q + 3, to, No)
  {
    hide WellFormed, CanUpdate, SafeExit, Accepts, Decode, CharOk, PicksIn;
    var n: nat :| PicksIn(code, txt, q + 3, from, w, n);
    PicksAccepts(code, txt, q + 3, from, w, n);
    DropSafe(code, bounds, txt, q, from, to, w.end);
    if Picks(code, txt, q + 3, to, No) {
      var m: nat :| PicksIn(code, txt, q + 3, to, No, m);
      PicksAccepts(code, txt, q + 3, to, No, m);
    }
  }

  /** At the end of a loop's body: once more around, or else out. */
  lemma {:induction false} AroundPicks(code: Code, bounds: set<int>, q: int, txt: Text, i: nat, v: Choice)
    requires WellFormed(code, bounds) && q in bounds && StraightLoop(code, q) && i <= |txt|
    requires Picks(code, txt, q, i, v)
    ensures var h := Head(code, q);
      Either(Picks(code, txt, h, i, v), Picks(code, txt, h, i, No), Picks(code, txt, q + 3, i, v), v)
  {
    hide WellFormed, Decode, Reader, StraightTo, Picks, Either;
    At(code, bounds, q);
    PicksStep(code, txt, q, i, v);
    PicksStep(code, txt, Head(code, q) - 3, i, v);
  }

  /** Moving the loop's failure point does not change what is chosen, if the exit is safe: had the loop's
      old failure point led to a match, the moved one would, and it is tried before. */
  lemma {:induction false} UpdatePicks(code: Code, bounds: set<int>, s: State, txt: Text, v: Choice)
    requires WellFormed(code, bounds) && Inv(code, bounds, s, txt) && CanUpdate(code, s.pc)
    requires SafeExit(code, s.pc) && StatePicks(code, s, txt, v)
    ensures Update(s, Head(code, s.pc)).Running?
    ensures StatePicks(code, Update(s, Head(code, s.pc)).state, txt, v)
  {
    hide WellFormed, Decode, Next, Variant, Reader, StraightTo, CharOk, FrameOk, FirstChar, SafeExit, Picks, StackPicks;
    var q := s.pc;
    var h, n := Head(code, q), |s.stack| - 1;
    UpdateJumpInv(code, bounds, s, txt);
    var s' := Update(s, h).state;
    var top := s.stack[n];
    BodyFacts(code, bounds, q, q);
    assert LoopOk(code, q, s, txt);
    if top.Live? && v.Yes? && Picks(code, txt, q + 3, top.text, v) {
      ExitTaken(code, bounds, txt, q, top.text, s.at, v);
    }
    if Picks(code, txt, q, s.at, v) { AroundPicks(code, bounds, q, txt, s.at, v); }
    if Picks(code, txt, q, s.at, No) { AroundPicks(code, bounds, q, txt, s.at, No); }
    StackTop(code, s.stack, txt, v);
    StackTop(code, s'.stack, txt, v);
    assert s'.stack[..n] == s.stack[..n];
  }

  // ---- One step, and whole runs -----------------------------------------------------------------------

  lemma {:induction false} StarPicks(code: Code, bounds: set<int>, opt: bool, s: State, txt: Text, v: Choice)
    requires WellFormed(code, bounds) && Inv(code, bounds, s, txt) && Decode(s.code, s.pc).StarJump?
    requires LoopsSafe(code, bounds) && StatePicks(code, s, txt, v)
    ensures Step(opt, s, txt).Running? && Step(opt, s, txt).state.at <= |txt|
    ensures StatePicks(code, Step(opt, s, txt).state, txt, v)
  {
    hide WellFormed, Decode, Next, Variant, Reader, StraightTo, CharOk, FrameOk, OwnFrame, TestOk, CanUpdate, Patch,
      Backtrack, Picks, SafeExit, StackPicks;
    var q, t := s.pc, Decode(s.code, s.pc).target;
    StarStepInv(code, bounds, opt, s, txt);
    VariantAt(code, bounds, s.code, q);
    if opt && CanUpdate(s.code, q) {
      UpdateSound(code, bounds, s.code, q);
      MakeUpdateJump(code, bounds, s.code, q);
      var later := Patch(s.code, q, CUPDATE_FAILURE_JUMP, t - q);
      CodeInv(code, bounds, s, txt, later);
      UpdatePicks(code, bounds, s.(code := later), txt, v);
    } else {
      forall w | Picks(code, txt, q, s.at, w) ensures Picks(code, txt, t, s.at, w) { PicksStep(code, txt, q, s.at, w); }
      SamePicks(code, s, Step(opt, s, txt).state, txt, v);
    }
  }

  /** One step does not change what is chosen, where the loops' exits are safe. */
  lemma {:induction false} StepKeepsChoice(code: Code, bounds: set<int>, opt: bool, s: State, txt: Text, v: Choice)
    requires WellFormed(code, bounds) && Inv(code, bounds, s, txt) && LoopsSafe(code, bounds)
    requires StatePicks(code, s, txt, v)
    ensures match Step(opt, s, txt)
      case Running(s') => s'.at <= |txt| && StatePicks(code, s', txt, v)
      case Halted(Matched(e), _) => v == Yes(e)
      case Halted(NoMatch, _) => v == No
      case _ => true
  {
    hide WellFormed, Decode, Next, Variant, Reader, StraightTo, CharOk, FrameOk, OwnFrame, TestOk, CanUpdate, Patch,
      Backtrack, Picks, SafeExit, StatePicks, LoopOk, LoopsSafe;
    StepInv(code, bounds, opt, s, txt);
    var now := s.code;
    At(code, bounds, s.pc);
    VariantAt(code, bounds, now, s.pc);
    forall w ensures Picks(code, txt, s.pc, s.at, w) <==> StepPicks(code, txt, s.pc, s.at, w) {
      PicksStep(code, txt, s.pc, s.at, w);
    }
    if v.Yes? ==> !Picks(code, txt, s.pc, s.at, v) { FailPicks(code, s, txt, v); }
    match Decode(now, s.pc)
    case End => EndPicks(code, s, txt, v);
    case Bad =>
    case Read =>
      if s.at < |txt| && CharOk(now, s.pc, txt[s.at]) {
        SamePicks(code, s, s.(pc := Next(now, s.pc), at := s.at + 1), txt, v);
      }
    case Test(op) =>
      if TestOk(op, txt, s.at) { SamePicks(code, s, s.(pc := Next(now, s.pc)), txt, v); }
    case Mark => SamePicks(code, s, s.(pc := Next(now, s.pc)), txt, v);
    case Jump(t) => SamePicks(code, s, s.(pc := t), txt, v);
    case StarJump(t) => StarPicks(code, bounds, opt, s, txt, v);
    case UpdateJump(t) => UpdateSafe(code, bounds, s.pc); UpdatePicks(code, bounds, s, txt, v);
    case FailJump(t) =>
      var f := Live(s.at, t);
      PushPicks(code, s, s.(pc := s.pc + 3, stack := s.stack + [f]), f, txt, v);
    case DummyJump(t) =>
      VariantAt(code, bounds, now, s.pc + 3);
      var f := Dummy(Decode(code, s.pc + 3).target);
      PushPicks(code, s, s.(pc := t, stack := s.stack + [f]), f, txt, v);
  }

  lemma {:induction false} UpdateSafe(code: Code, bounds: set<int>, q: int)
    requires LoopsSafe(code, bounds) && q in bounds
    ensures CanUpdate(code, q) ==> SafeExit(code, q)
  {
    hide CanUpdate, SafeExit;
  }

  lemma {:induction false} EndPicks(code: Code, s: State, txt: Text, v: Choice)
    requires s.at <= |txt| && StatePicks(code, s, txt, v) && Decode(code, s.pc).End?
    ensures v == Yes(s.at)
  {
    hide Decode;
    PicksStep(code, txt, s.pc, s.at, v);
    PicksStep(code, txt, s.pc, s.at, No);
  }

  /** A run that ends without overflow answers what the program chooses. */
  lemma {:induction false} RunPicks(code: Code, bounds: set<int>, opt: bool, s: State, txt: Text, v: Choice, n: nat,
                                    o: Outcome, later: Code)
    requires WellFormed(code, bounds) && Inv(code, bounds, s, txt) && LoopsSafe(code, bounds)
    requires StatePicks(code, s, txt, v) && RunsTo(opt, s, txt, n, o, later)
    ensures o.Matched? ==> v == Yes(o.end)
    ensures o == NoMatch ==> v == No
    decreases n
  {
    hide WellFormed, Variant, FrameOk, LoopOk, Step, StatePicks, LoopsSafe;
    StepKeepsChoice(code, bounds, opt, s, txt, v);
    StepInv(code, bounds, opt, s, txt);
    match Step(opt, s, txt)
    case Halted(_, _) =>
    case Running(s') => RunPicks(code, bounds, opt, s', txt, v, n - 1, o, later);
  }
}
