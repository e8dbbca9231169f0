/** Which instruction pushed each failure point, and that an updating jump moves its own loop's. */
module RegexOwners {
  import opened RegexCode
  import opened RegexWellFormed
  import opened RegexMachine
  import opened RegexLoops
  import opened RegexRuns

  /** The addresses of the instructions that pushed the failure points, after one more step. */
  ghost function OwnersAfter(s: State, owners: seq<int>, s': State): seq<int>
    requires |owners| == |s.stack|
  {
    if |s'.stack| > |s.stack| then owners + [s.pc]
    else if |s'.stack| < |s.stack| then owners[..|s'.stack|]
    else owners
  }

  /** x is the failure jump at the head of the straight loop closed at q, or the dummy one before it. */
  ghost predicate PushesFor(code: Code, q: int, x: int)
    requires Decode(code, q).StarJump?
  {
    || (x == Head(code, q) - 3 && Decode(code, x).FailJump?)
    || (x == Head(code, q) - 6 && Decode(code, x).DummyJump?)
  }

  ghost predicate LoopOwned(code: Code, q: int, s: State, owners: seq<int>) {
    StraightLoop(code, q) && Head(code, q) <= s.pc <= q ==> owners != [] && PushesFor(code, q, owners[|owners| - 1])
  }

  /** In the body of each straight loop the topmost failure point was pushed by that loop. */
  ghost predicate Owned(code: Code, bounds: set<int>, s: State, owners: seq<int>) {
    |owners| == |s.stack| && forall q <- bounds :: LoopOwned(code, q, s, owners)
  }

  lemma {:induction false} InitialOwned(code: Code, bounds: set<int>, now: Code, pos: nat)
    requires WellFormed(code, bounds)
    ensures Owned(code, bounds, Initial(now, pos), [])
  {
    hide WellFormed, Decode, Reader, StraightTo;
    forall q <- bounds ensures LoopOwned(code, q, Initial(now, pos), []) {
      if StraightLoop(code, q) { BodyFacts(code, bounds, q, 0); }
    }
  }

  /** A way on from x to y, with the failure points as they are or one more pushed at x. */
  lemma {:induction false} OnOwned(code: Code, bounds: set<int>, s: State, s': State, owners: seq<int>)
    requires WellFormed(code, bounds) && Owned(code, bounds, s, owners) && s.pc in bounds && s'.pc in bounds
    requires match Decode(code, s.pc)
      case FailJump(_) => s'.pc == s.pc + 3 && |s'.stack| == |s.stack| + 1
      case DummyJump(t) => s'.pc == t && |s'.stack| == |s.stack| + 1
      case i => IsPlain(i) && s'.pc == Next(code, s.pc) && |s'.stack| == |s.stack|
    ensures Owned(code, bounds, s', OwnersAfter(s, owners, s'))
  {
    hide WellFormed, Decode, Next, Reader, StraightTo;
    At(code, bounds, s.pc);
    forall q <- bounds ensures LoopOwned(code, q, s', OwnersAfter(s, owners, s')) {
      if StraightLoop(code, q) && Head(code, q) <= s'.pc <= q {
        At(code, bounds, q);
        At(code, bounds, Head(code, q) - 3);
        BodyFacts(code, bounds, q, s.pc);
        EntersAtHead(code, bounds, q, s.pc, s'.pc);
        assert LoopOwned(code, q, s, owners);
      }
    }
  }

  /** Where no straight loop is, there is nothing to own. */
  lemma {:induction false} OutsideOwned(code: Code, bounds: set<int>, s: State, owners: seq<int>)
    requires Outside(code, bounds, s.pc) && |owners| == |s.stack|
    ensures Owned(code, bounds, s, owners)
  {
    hide Decode, Reader, StraightTo, PushesFor;
  }

  lemma {:induction false} BacktrackOutside(code: Code, bounds: set<int>, now: Code, stack: seq<Frame>, txt: Text)
    requires forall f <- stack :: FrameOk(code, bounds, f, txt)
    ensures Backtrack(now, stack).Running? ==>
      Outside(code, bounds, Backtrack(now, stack).state.pc) && |Backtrack(now, stack).state.stack| < |stack|
    decreases |stack|
  {
    hide Outside;
    if stack != [] {
      var top, rest := stack[|stack| - 1], stack[..|stack| - 1];
      assert top in stack && forall f <- rest :: f in stack;
      if top.Dummy? { BacktrackOutside(code, bounds, now, rest, txt); }
    }
  }

  /** Going back to the head of the loop at s.pc leaves the topmost failure point the loop's. */
  lemma {:induction false} BackOwned(code: Code, bounds: set<int>, s: State, s': State, owners: seq<int>)
    requires WellFormed(code, bounds) && Owned(code, bounds, s, owners) && s.pc in bounds && StraightLoop(code, s.pc)
    requires s'.pc == Head(code, s.pc) && |s'.stack| == |s.stack|
    ensures Owned(code, bounds, s', owners)
  {
    hide WellFormed, Decode, Next, Reader, StraightTo, PushesFor;
    BodyFacts(code, bounds, s.pc, s.pc);
    assert LoopOwned(code, s.pc, s, owners);
    forall l <- bounds ensures LoopOwned(code, l, s', owners) {
      if StraightLoop(code, l) && Head(code, l) <= s'.pc <= l { HeadOfOne(code, bounds, s.pc, l); }
    }
  }

  /** Every step keeps the failure points with their owners. */
  lemma {:induction false} StepOwned(code: Code, bounds: set<int>, opt: bool, s: State, owners: seq<int>, txt: Text)
    requires WellFormed(code, bounds) && Inv(code, bounds, s, txt) && Owned(code, bounds, s, owners)
    ensures match Step(opt, s, txt)
      case Running(s') => Owned(code, bounds, s', OwnersAfter(s, owners, s'))
      case Halted(_, _) => true
  {
    hide WellFormed, Decode, Next, Variant, CharOk, FrameOk, OwnFrame, TestOk, CanUpdate, Patch, Backtrack, Outside,
      LoopOk, Owned;
    At(code, bounds, s.pc);
    VariantAt(code, bounds, s.code, s.pc);
    StepInv(code, bounds, opt, s, txt);
    BacktrackOutside(code, bounds, s.code, s.stack, txt);
    if Step(opt, s, txt).Running? {
      var s' := Step(opt, s, txt).state;
      OwnedSize(code, bounds, s, owners);
      var i := Decode(s.code, s.pc);
      if i.StarJump? {
        StarOwned(code, bounds, opt, s, owners, txt);
      } else if i.UpdateJump? {
        CanUpdateStraight(code, s.pc);
        BackOwned(code, bounds, s, s', owners);
      } else if i.Jump? {
        JumpOutside(code, bounds, s.pc);
        OutsideOwned(code, bounds, s', owners);
      } else if |s'.stack| < |s.stack| {
        OutsideOwned(code, bounds, s', owners[..|s'.stack|]);
      } else {
        OnOwned(code, bounds, s, s', owners);
      }
    }
  }

  lemma {:induction false} OwnedSize(code: Code, bounds: set<int>, s: State, owners: seq<int>)
    requires Owned(code, bounds, s, owners)
    ensures |owners| == |s.stack|
  {
  }

  lemma {:induction false} CanUpdateStraight(code: Code, q: int)
    requires CanUpdate(code, q)
    ensures StraightLoop(code, q)
  {
  }

  lemma {:induction false} StarOwned(code: Code, bounds: set<int>, opt: bool, s: State, owners: seq<int>, txt: Text)
    requires WellFormed(code, bounds) && Inv(code, bounds, s, txt) && Owned(code, bounds, s, owners)
    requires Decode(s.code, s.pc).StarJump?
    ensures Step(opt, s, txt).Running?
    ensures var s' := Step(opt, s, txt).state; Owned(code, bounds, s', OwnersAfter(s, owners, s'))
  {
    hide WellFormed, Decode, Next, Variant, CharOk, FrameOk, OwnFrame, TestOk, CanUpdate, Patch, Backtrack, LoopOk,
      PushesFor, StraightLoop;
    StarStepInv(code, bounds, opt, s, txt);
    var s' := Step(opt, s, txt).state;
    if opt && CanUpdate(s.code, s.pc) {
      UpdateSound(code, bounds, s.code, s.pc);
      CanUpdateStraight(code, s.pc);
      BackOwned(code, bounds, s, s', owners);
    } else {
      forall q <- bounds ensures LoopOwned(code, q, s', owners) { assert LoopOwned(code, q, s, owners); }
    }
  }

  /** Where an updating jump runs, or is made, the failure point it moves was pushed by its own loop. */
  lemma {:induction false} MovesItsOwn(code: Code, bounds: set<int>, s: State, owners: seq<int>, txt: Text)
    requires WellFormed(code, bounds) && Inv(code, bounds, s, txt) && Owned(code, bounds, s, owners)
    requires Decode(s.code, s.pc).UpdateJump? || (Decode(s.code, s.pc).StarJump? && CanUpdate(s.code, s.pc))
    ensures CanUpdate(code, s.pc) && Step(true, s, txt).Running?
    ensures owners != [] && PushesFor(code, s.pc, owners[|owners| - 1])
  {
    hide WellFormed, Decode, Next, Variant, CharOk, FrameOk, OwnFrame, TestOk, Patch, Backtrack, LoopOk, PushesFor,
      FirstChar, Reader, StraightTo;
    At(code, bounds, s.pc);
    VariantAt(code, bounds, s.code, s.pc);
    StepInv(code, bounds, true, s, txt);
    if Decode(s.code, s.pc).StarJump? {
      UpdateSound(code, bounds, s.code, s.pc);
    }
    BodyFacts(code, bounds, s.pc, s.pc);
    assert LoopOwned(code, s.pc, s, owners);
    UpdateJumpInv(code, bounds, s, txt);
  }

  // ---- Every reachable state -----------------------------------------------------------------------------

  /** n steps lead from s to s'. */
  ghost predicate Reaches(opt: bool, s: State, txt: Text, n: nat, s': State)
    requires s.at <= |txt|
    decreases n
  {
    if n == 0 then s' == s
    else
      match Step(opt, s, txt)
      case Halted(_, _) => false
      case Running(next) => next.at <= |txt| && Reaches(opt, next, txt, n - 1, s')
  }

  lemma {:induction false} ReachedFrom(code: Code, bounds: set<int>, opt: bool, s: State, owners: seq<int>, txt: Text,
                                       n: nat, s': State)
    returns (owners': seq<int>)
    requires WellFormed(code, bounds) && Inv(code, bounds, s, txt) && Owned(code, bounds, s, owners)
    requires Reaches(opt, s, txt, n, s')
    ensures Inv(code, bounds, s', txt) && Owned(code, bounds, s', owners')
    decreases n
  {
    hide WellFormed, Variant, FrameOk, LoopOk, Owned, Step;
    owners' := owners;
    if n > 0 {
      OwnedSize(code, bounds, s, owners);
      StepInv(code, bounds, opt, s, txt);
      StepOwned(code, bounds, opt, s, owners, txt);
      var next := Step(opt, s, txt).state;
      owners' := ReachedFrom(code, bounds, opt, next, OwnersAfter(s, owners, next), txt, n - 1, s');
    }
  }

  /** In every state a matching attempt reaches, on a program rewritten to any degree, the invariant holds,
      the failure points have owners as said above, and an updating jump would move one of its own loop. */
  lemma {:induction false} EveryState(code: Code, bounds: set<int>, now: Code, pos: nat, txt: Text, n: nat, s: State)
    returns (owners: seq<int>)
    requires WellFormed(code, bounds) && Variant(code, bounds, now) && pos <= |txt|
    requires Reaches(true, Initial(now, pos), txt, n, s)
    ensures Inv(code, bounds, s, txt) && Owned(code, bounds, s, owners)
    ensures var i := Decode(s.code, s.pc);
      i.UpdateJump? || (i.StarJump? && CanUpdate(s.code, s.pc)) ==>
        CanUpdate(code, s.pc) && owners != [] && PushesFor(code, s.pc, owners[|owners| - 1])
  {
    hide WellFormed, Variant, FrameOk, LoopOk, Owned, Decode, CanUpdate, Reaches, PushesFor;
    InitialInv(code, bounds, now, pos, txt);
    InitialOwned(code, bounds, now, pos);
    owners := ReachedFrom(code, bounds, true, Initial(now, pos), [], txt, n, s);
    var i := Decode(s.code, s.pc);
    if i.UpdateJump? || (i.StarJump? && CanUpdate(s.code, s.pc)) { MovesItsOwn(code, bounds, s, owners, txt); }
  }
}
