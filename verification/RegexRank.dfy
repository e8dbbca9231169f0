/** The matcher halts on every compiled program and every text. */
module RegexRank {
  import opened RegexCode
  import opened RegexWellFormed
  import opened RegexMachine
  import opened RegexLoops
  import opened RegexRuns

  // ---- Comparing stacks lexicographically, as numbers ------------------------------------------

  function Power(base: nat, k: nat): nat {
    if k == 0 then 1 else base * Power(base, k - 1)
  }

  /** The digits ds, padded with the largest digit to k places, in the given base. */
  function Number(ds: seq<nat>, base: nat, k: nat): nat
    requires base > 0
    decreases k
  {
    if k == 0 then 0
    else
      (if ds == [] then base - 1 else ds[0]) * Power(base, k - 1)
      + Number(if ds == [] then [] else ds[1..], base, k - 1)
  }

  ghost predicate Digits(ds: seq<nat>, base: nat) {
    forall k :: 0 <= k < |ds| ==> ds[k] < base
  }

  lemma {:induction false} MulLess(d: nat, c: nat, p: nat, low: nat)
    requires d < c && low < p
    ensures d * p + low < c * p
  {
    assert (d + 1) * p == d * p + p;
    MulMono(d + 1, c, p);
  }

  lemma {:induction false} MulMono(a: nat, b: nat, p: nat)
    requires a <= b
    ensures a * p <= b * p
  {
  }

  lemma {:induction false} NumberBound(ds: seq<nat>, base: nat, k: nat)
    requires base > 0 && Digits(ds, base)
    ensures Number(ds, base, k) < Power(base, k)
    decreases k
  {
    if k > 0 {
      var rest := if ds == [] then [] else ds[1..];
      NumberBound(rest, base, k - 1);
      MulLess(if ds == [] then base - 1 else ds[0], base, Power(base, k - 1), Number(rest, base, k - 1));
    }
  }

  /** The first difference decides. */
  lemma {:induction false} FirstDifference(ds: seq<nat>, es: seq<nat>, m: nat, base: nat, k: nat)
    requires base > 0 && Digits(ds, base) && m < k && m < |ds| && m <= |es|
    requires ds[..m] == es[..m] && ds[m] < if m < |es| then es[m] else base - 1
    ensures Number(ds, base, k) < Number(es, base, k)
    decreases m
  {
    var restD, restE := ds[1..], if es == [] then [] else es[1..];
    if m == 0 {
      NumberBound(restD, base, k - 1);
      MulLess(ds[0], if es == [] then base - 1 else es[0], Power(base, k - 1), Number(restD, base, k - 1));
    } else {
      assert ds[0] == ds[..m][0] && es[0] == es[..m][0];
      assert restD[..m - 1] == ds[..m][1..] && restE[..m - 1] == es[..m][1..];
      FirstDifference(restD, restE, m - 1, base, k - 1);
    }
  }

  // ---- The rank of a state -----------------------------------------------------------------------

  /** Weight of a level of the stack whose last failure point, resuming at `resume`, is gone. */
  function Gone(size: nat, length: nat, resume: int): nat
    requires 0 <= resume <= size
  {
    (size - resume) * (length + 3)
  }

  /** Weight of a failure point. It falls when its text position moves forward. */
  function Weight(size: nat, length: nat, f: Frame): nat
    requires 0 <= f.resume <= size && (f.Live? ==> f.text <= length)
  {
    Gone(size, length, f.resume) + 1 + (if f.Dummy? then length + 1 else length - f.text)
  }

  ghost predicate Weighable(size: nat, length: nat, stack: seq<Frame>) {
    forall f <- stack :: 0 <= f.resume <= size && (f.Live? ==> f.text <= length)
  }

  ghost function Weights(size: nat, length: nat, stack: seq<Frame>): (w: seq<nat>)
    requires Weighable(size, length, stack)
    ensures |w| == |stack| && forall k :: 0 <= k < |w| ==> stack[k] in stack && w[k] == Weight(size, length, stack[k])
  {
    seq(|stack|, k requires 0 <= k < |stack| => assert stack[k] in stack; Weight(size, length, stack[k]))
  }

  function Base(size: nat, length: nat): (b: nat)
    ensures b > 0
  {
    MulMono(1, size + 1, length + 3);
    (size + 1) * (length + 3)
  }

  lemma {:induction false} GoneLess(size: nat, length: nat, a: int, b: int)
    requires 0 <= a < b <= size
    ensures Gone(size, length, b) + length + 3 <= Gone(size, length, a)
  {
    MulMono(size - b + 1, size - a, length + 3);
    assert (size - b + 1) * (length + 3) == (size - b) * (length + 3) + (length + 3);
  }

  lemma {:induction false} WeightBound(size: nat, length: nat, f: Frame)
    requires 0 <= f.resume <= size && (f.Live? ==> f.text <= length)
    ensures Gone(size, length, f.resume) < Weight(size, length, f) < Gone(size, length, f.resume) + length + 3
    ensures Weight(size, length, f) < Base(size, length) && Gone(size, length, f.resume) < Base(size, length)
  {
    MulMono(size - f.resume, size, length + 3);
    assert (size + 1) * (length + 3) == size * (length + 3) + (length + 3);
  }

  /** The stack, and below the next free level the address from which its next failure point must
      move on: the resume address last popped from there, or the last loop gone back through. */
  ghost function Levels(size: nat, length: nat, stack: seq<Frame>, floor: int): (ds: seq<nat>)
    requires Weighable(size, length, stack) && 0 <= floor <= size
    ensures Digits(ds, Base(size, length))
  {
    var ds := Weights(size, length, stack) + [Gone(size, length, floor)];
    forall k | 0 <= k < |ds| ensures ds[k] < Base(size, length) {
      if k < |stack| { WeightBound(size, length, stack[k]); } else { WeightBound(size, length, Dummy(floor)); }
    }
    ds
  }

  ghost function Rank(size: nat, length: nat, stack: seq<Frame>, floor: int): nat
    requires Weighable(size, length, stack) && 0 <= floor <= size
  {
    Number(Levels(size, length, stack, floor), Base(size, length), MAX_FAILURES + 1)
  }

  /** Pushing a failure point that resumes beyond the floor lowers the rank. */
  lemma {:induction false} PushLowers(size: nat, length: nat, stack: seq<Frame>, floor: int, f: Frame)
    requires Weighable(size, length, stack) && Weighable(size, length, stack + [f]) && |stack| < MAX_FAILURES
    requires 0 <= floor < f.resume <= size
    ensures Rank(size, length, stack + [f], 0) < Rank(size, length, stack, floor)
  {
    hide Number, Weight, Gone, Base;
    var n := |stack|;
    assert f == (stack + [f])[n] && f in stack + [f];
    var ds, es := Levels(size, length, stack + [f], 0), Levels(size, length, stack, floor);
    assert ds[..n] == es[..n] by {
      forall k | 0 <= k < n ensures ds[k] == es[k] { assert (stack + [f])[k] == stack[k]; }
    }
    WeightBound(size, length, f);
    GoneLess(size, length, floor, f.resume);
    FirstDifference(ds, es, n, Base(size, length), MAX_FAILURES + 1);
  }

  /** Popping down to level n lowers the rank, with the popped resume address as the new floor. */
  lemma {:induction false} PopLowers(size: nat, length: nat, stack: seq<Frame>, floor: int, n: nat)
    requires Weighable(size, length, stack) && n < |stack| <= MAX_FAILURES && 0 <= floor <= size
    ensures Weighable(size, length, stack[..n]) && 0 <= stack[n].resume <= size
    ensures Rank(size, length, stack[..n], stack[n].resume) < Rank(size, length, stack, floor)
  {
    hide Number, Weight, Gone, Base;
    assert forall f <- stack[..n] :: f in stack;
    assert stack[n] in stack;
    var ds, es := Levels(size, length, stack[..n], stack[n].resume), Levels(size, length, stack, floor);
    assert ds[..n] == es[..n];
    WeightBound(size, length, stack[n]);
    FirstDifference(ds, es, n, Base(size, length), MAX_FAILURES + 1);
  }

  /** Moving the topmost failure point forward in the text lowers the rank. */
  lemma {:induction false} MoveLowers(size: nat, length: nat, stack: seq<Frame>, floor: int, at: nat)
    requires Weighable(size, length, stack) && 0 < |stack| <= MAX_FAILURES && 0 <= floor <= size && at <= length
    requires var top := stack[|stack| - 1]; top.Live? ==> top.text < at
    ensures var n := |stack| - 1;
      var moved := stack[n := Live(at, stack[n].resume)];
      Weighable(size, length, moved) && Rank(size, length, moved, 0) < Rank(size, length, stack, floor)
  {
    hide Number, Gone, Base;
    var n := |stack| - 1;
    var moved := stack[n := Live(at, stack[n].resume)];
    assert stack[n] in stack && forall f <- moved :: f in stack || f == moved[n];
    var ds, es := Levels(size, length, moved, 0), Levels(size, length, stack, floor);
    assert ds[..n] == es[..n];
    FirstDifference(ds, es, n, Base(size, length), MAX_FAILURES + 1);
  }

  lemma {:induction false} FloorLowers(size: nat, length: nat, stack: seq<Frame>, floor: int, raised: int)
    requires Weighable(size, length, stack) && |stack| <= MAX_FAILURES && 0 <= floor < raised <= size
    ensures Rank(size, length, stack, raised) < Rank(size, length, stack, floor)
  {
    hide Number, Weight, Gone, Base;
    var n := |stack|;
    var ds, es := Levels(size, length, stack, raised), Levels(size, length, stack, floor);
    assert ds[..n] == es[..n];
    GoneLess(size, length, floor, raised);
    FirstDifference(ds, es, n, Base(size, length), MAX_FAILURES + 1);
  }

  // ---- Steps lower the rank ------------------------------------------------------------------------

  lemma {:induction false} InvWeighable(code: Code, bounds: set<int>, s: State, txt: Text)
    requires WellFormed(code, bounds) && Inv(code, bounds, s, txt)
    ensures Weighable(|code|, |txt|, s.stack) && 0 <= s.pc < |code|
  {
    hide WellFormed, Decode, Variant, Outside, LoopOk;
    At(code, bounds, s.pc);
    forall f <- s.stack ensures 0 <= f.resume <= |code| && (f.Live? ==> f.text <= |txt|) {
      assert FrameOk(code, bounds, f, txt);
      At(code, bounds, f.resume);
    }
  }

  /** The matcher has reached the floor, or is about to push a failure point beyond it. */
  ghost predicate OnTheWay(code: Code, s: State, floor: int) {
    0 <= floor <= |code| && (floor <= s.pc || (Decode(code, s.pc).FailJump? && floor < Decode(code, s.pc).target))
  }

  ghost function StarsHere(s: State): nat {
    if Decode(s.code, s.pc).StarJump? then 1 else 0
  }

  /** The measure: the rank of the stack, then the code still ahead, then a star jump not rewritten. */
  ghost predicate Lower(code: Code, txt: Text, s: State, floor: int, s': State, floor': int)
    requires Weighable(|code|, |txt|, s.stack) && Weighable(|code|, |txt|, s'.stack)
    requires 0 <= floor <= |code| && 0 <= floor' <= |code|
  {
    var r, r' := Rank(|code|, |txt|, s.stack, floor), Rank(|code|, |txt|, s'.stack, floor');
    || r' < r
    || (r' == r && s'.pc > s.pc)
    || (r' == r && s'.pc == s.pc && StarsHere(s') < StarsHere(s))
  }

  lemma {:induction false} BacktrackLowers(code: Code, now: Code, txt: Text, stack: seq<Frame>, floor: int)
    requires Weighable(|code|, |txt|, stack) && |stack| <= MAX_FAILURES && 0 <= floor <= |code|
    requires Backtrack(now, stack).Running?
    ensures var s' := Backtrack(now, stack).state;
      && Weighable(|code|, |txt|, s'.stack) && 0 <= s'.pc <= |code|
      && Rank(|code|, |txt|, s'.stack, s'.pc) < Rank(|code|, |txt|, stack, floor)
    decreases |stack|
  {
    hide Rank, Weighable;
    var n := |stack| - 1;
    PopLowers(|code|, |txt|, stack, floor, n);
    if stack[n].Dummy? { BacktrackLowers(code, now, txt, stack[..n], stack[n].resume); }
  }

  lemma {:induction false} StepLowers(code: Code, bounds: set<int>, opt: bool, s: State, txt: Text, floor: int)
    returns (floor': int)
    requires WellFormed(code, bounds) && Inv(code, bounds, s, txt) && OnTheWay(code, s, floor)
    requires Step(opt, s, txt).Running?
    ensures var s' := Step(opt, s, txt).state;
      && Inv(code, bounds, s', txt) && Weighable(|code|, |txt|, s.stack) && Weighable(|code|, |txt|, s'.stack)
      && OnTheWay(code, s', floor') && Lower(code, txt, s, floor, s', floor')
  {
    hide WellFormed, Decode, Next, Variant, Reader, StraightTo, CharOk, FrameOk, OwnFrame, LoopOk, TestOk, CanUpdate,
      Patch, Backtrack, Rank, Weighable;
    var now, s' := s.code, Step(opt, s, txt).state;
    StepInv(code, bounds, opt, s, txt);
    InvWeighable(code, bounds, s, txt);
    InvWeighable(code, bounds, s', txt);
    At(code, bounds, s.pc);
    VariantAt(code, bounds, now, s.pc);
    floor' := floor;
    match Decode(now, s.pc)
    case Read =>
      if !(s.at < |txt| && CharOk(now, s.pc, txt[s.at])) {
        BacktrackLowers(code, now, txt, s.stack, floor);
        floor' := s'.pc;
      }
    case Test(op) =>
      if !TestOk(op, txt, s.at) {
        BacktrackLowers(code, now, txt, s.stack, floor);
        floor' := s'.pc;
      }
    case Mark =>
    case Jump(t) =>
      if Decode(code, s.pc).StarJump? {
        floor' := s.pc + 1;
        FloorLowers(|code|, |txt|, s.stack, floor, floor');
      }
    case StarJump(t) =>
      if opt && CanUpdate(now, s.pc) {
        UpdateSound(code, bounds, now, s.pc);
        floor' := UpdateLowers(code, bounds, s, txt, floor);
      } else {
        MakeNormalJump(code, bounds, now, s.pc);
      }
    case UpdateJump(t) => floor' := UpdateLowers(code, bounds, s, txt, floor);
    case FailJump(t) =>
      At(code, bounds, t);
      PushLowers(|code|, |txt|, s.stack, floor, Live(s.at, t));
      floor' := 0;
    case DummyJump(t) =>
      VariantAt(code, bounds, now, s.pc + 3);
      At(code, bounds, s.pc + 3);
      At(code, bounds, Decode(code, s.pc + 3).target);
      PushLowers(|code|, |txt|, s.stack, floor, Dummy(Decode(code, s.pc + 3).target));
      floor' := 0;
  }

  lemma {:induction false} UpdateLowers(code: Code, bounds: set<int>, s: State, txt: Text, floor: int)
    returns (floor': int)
    requires WellFormed(code, bounds) && Inv(code, bounds, s, txt) && CanUpdate(code, s.pc) && 0 <= floor <= |code|
    ensures floor' == 0 && s.stack != []
    ensures var n := |s.stack| - 1;
      var moved := s.stack[n := Live(s.at, s.stack[n].resume)];
      && Weighable(|code|, |txt|, s.stack) && Weighable(|code|, |txt|, moved)
      && Rank(|code|, |txt|, moved, 0) < Rank(|code|, |txt|, s.stack, floor)
  {
    hide WellFormed, Decode, Next, Variant, Reader, StraightTo, CharOk, FrameOk, FirstChar, Rank, Weighable;
    floor' := 0;
    InvWeighable(code, bounds, s, txt);
    BodyFacts(code, bounds, s.pc, s.pc);
    assert LoopOk(code, s.pc, s, txt);
    MoveLowers(|code|, |txt|, s.stack, floor, s.at);
  }

  /** From every reachable state, on every text, the matcher halts. */
  lemma {:induction false} Halts(code: Code, bounds: set<int>, opt: bool, s: State, txt: Text, floor: int)
    returns (n: nat, o: Outcome, later: Code)
    requires WellFormed(code, bounds) && Inv(code, bounds, s, txt) && OnTheWay(code, s, floor)
    ensures RunsTo(opt, s, txt, n, o, later)
    decreases
      (InvWeighable(code, bounds, s, txt); Rank(|code|, |txt|, s.stack, floor)), |code| - s.pc, StarsHere(s)
  {
    hide WellFormed, Decode, Variant, FrameOk, LoopOk, Step, Rank, Weighable;
    match Step(opt, s, txt)
    case Halted(outcome, c) => n, o, later := 1, outcome, c;
    case Running(s') =>
      var floor' := StepLowers(code, bounds, opt, s, txt, floor);
      InvWeighable(code, bounds, s, txt);
      InvWeighable(code, bounds, s', txt);
      n, o, later := Halts(code, bounds, opt, s', txt, floor');
      n := n + 1;
  }
}
