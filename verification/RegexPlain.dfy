/** Rewriting star jumps while matching never changes the answer. */
module RegexPlain {
  import opened RegexCode
  import opened RegexWellFormed
  import opened RegexMeaning
  import opened RegexMachine
  import opened RegexLoops
  import opened RegexRuns
  import opened RegexCorrect

  datatype Answer = Found(end: nat) | Nowhere | Unknown

  /** First-match semantics of the plain program, with a bound on the depth explored: at a failure
      jump the way straight on comes first, and the target only if that finds nothing. */
  ghost function Search(code: Code, txt: Text, p: int, i: nat, fuel: nat): Answer
    requires i <= |txt|
    decreases fuel
  {
    if fuel == 0 then Unknown
    else match Decode(code, p)
      case End => Found(i)
      case Read =>
        if i < |txt| && CharOk(code, p, txt[i]) then Search(code, txt, Next(code, p), i + 1, fuel - 1) else Nowhere
      case Test(op) => if TestOk(op, txt, i) then Search(code, txt, Next(code, p), i, fuel - 1) else Nowhere
      case Mark => Search(code, txt, Next(code, p), i, fuel - 1)
      case FailJump(t) =>
        var first := Search(code, txt, p + 3, i, fuel - 1);
        if first == Nowhere then Search(code, txt, t, i, fuel - 1) else first
      case Bad => Nowhere
      case j => Search(code, txt, j.target, i, fuel - 1)
  }

  /** The failure points, topmost first. */
  ghost function SearchStack(code: Code, txt: Text, stack: seq<Frame>, fuel: nat): Answer
    decreases |stack|
  {
    if stack == [] then Nowhere
    else
      var top, rest := stack[|stack| - 1], stack[..|stack| - 1];
      var first := if top.Live? && top.text <= |txt| then Search(code, txt, top.resume, top.text, fuel) else Nowhere;
      if first == Nowhere then SearchStack(code, txt, rest, fuel) else first
  }

  ghost function SearchState(code: Code, txt: Text, s: State, fuel: nat): Answer
    requires s.at <= |txt|
  {
    var first := Search(code, txt, s.pc, s.at, fuel);
    if first == Nowhere then SearchStack(code, txt, s.stack, fuel) else first
  }

  ghost predicate Agrees(a: Answer, o: Outcome) {
    match a
    case Found(k) => o == Matched(k)
    case Nowhere => o == NoMatch
    case Unknown => false
  }

  // ---- Fuel ------------------------------------------------------------------------------------

  lemma {:induction false} SearchMore(code: Code, txt: Text, p: int, i: nat, fuel: nat, more: nat)
    requires i <= |txt| && fuel <= more && Search(code, txt, p, i, fuel) != Unknown
    ensures Search(code, txt, p, i, more) == Search(code, txt, p, i, fuel)
    decreases fuel
  {
    hide Decode, Next, CharOk, TestOk;
    match Decode(code, p)
    case End =>
    case Read =>
      if i < |txt| && CharOk(code, p, txt[i]) { SearchMore(code, txt, Next(code, p), i + 1, fuel - 1, more - 1); }
    case Test(op) => if TestOk(op, txt, i) { SearchMore(code, txt, Next(code, p), i, fuel - 1, more - 1); }
    case Mark => SearchMore(code, txt, Next(code, p), i, fuel - 1, more - 1);
    case FailJump(t) =>
      SearchMore(code, txt, p + 3, i, fuel - 1, more - 1);
      if Search(code, txt, p + 3, i, fuel - 1) == Nowhere { SearchMore(code, txt, t, i, fuel - 1, more - 1); }
    case Jump(t) => SearchMore(code, txt, t, i, fuel - 1, more - 1);
    case StarJump(t) => SearchMore(code, txt, t, i, fuel - 1, more - 1);
    case UpdateJump(t) => SearchMore(code, txt, t, i, fuel - 1, more - 1);
    case DummyJump(t) => SearchMore(code, txt, t, i, fuel - 1, more - 1);
    case Bad =>
  }

  lemma {:induction false} SearchStackMore(code: Code, txt: Text, stack: seq<Frame>, fuel: nat, more: nat)
    requires fuel <= more && SearchStack(code, txt, stack, fuel) != Unknown
    ensures SearchStack(code, txt, stack, more) == SearchStack(code, txt, stack, fuel)
    decreases |stack|
  {
    hide Search;
    if stack != [] {
      var top, rest := stack[|stack| - 1], stack[..|stack| - 1];
      if top.Live? && top.text <= |txt| { SearchMore(code, txt, top.resume, top.text, fuel, more); }
      if !(top.Live? && top.text <= |txt|) || Search(code, txt, top.resume, top.text, fuel) == Nowhere {
        SearchStackMore(code, txt, rest, fuel, more);
      }
    }
  }

  lemma {:induction false} SearchStateMore(code: Code, txt: Text, s: State, fuel: nat, more: nat)
    requires s.at <= |txt| && fuel <= more && SearchState(code, txt, s, fuel) != Unknown
    ensures SearchState(code, txt, s, more) == SearchState(code, txt, s, fuel)
  {
    hide Search, SearchStack;
    SearchMore(code, txt, s.pc, s.at, fuel, more);
    if Search(code, txt, s.pc, s.at, fuel) == Nowhere { SearchStackMore(code, txt, s.stack, fuel, more); }
  }

  // ---- The search decides acceptance ------------------------------------------------------------

  lemma {:induction false} SearchDecides(code: Code, txt: Text, p: int, i: nat, k: nat, fuel: nat)
    requires i <= |txt|
    ensures Search(code, txt, p, i, fuel) == Found(k) ==> Accepts(code, txt, p, i, k)
    ensures Search(code, txt, p, i, fuel) == Nowhere ==> !Accepts(code, txt, p, i, k)
    decreases fuel
  {
    hide Decode, Next, CharOk, TestOk, Accepts;
    if fuel > 0 {
      AcceptsStep(code, txt, p, i, k);
      match Decode(code, p)
      case End =>
      case Read =>
        if i < |txt| && CharOk(code, p, txt[i]) { SearchDecides(code, txt, Next(code, p), i + 1, k, fuel - 1); }
      case Test(op) => if TestOk(op, txt, i) { SearchDecides(code, txt, Next(code, p), i, k, fuel - 1); }
      case Mark => SearchDecides(code, txt, Next(code, p), i, k, fuel - 1);
      case FailJump(t) =>
        SearchDecides(code, txt, p + 3, i, k, fuel - 1);
        SearchDecides(code, txt, t, i, k, fuel - 1);
      case Jump(t) => SearchDecides(code, txt, t, i, k, fuel - 1);
      case StarJump(t) => SearchDecides(code, txt, t, i, k, fuel - 1);
      case UpdateJump(t) => SearchDecides(code, txt, t, i, k, fuel - 1);
      case DummyJump(t) => SearchDecides(code, txt, t, i, k, fuel - 1);
      case Bad =>
    }
  }

  // ---- Steps of the machine, seen by the search --------------------------------------------------

  lemma {:induction false} BacktrackSearch(code: Code, now: Code, stack: seq<Frame>, txt: Text, fuel: nat)
    requires forall f <- stack :: f.Live? ==> f.text <= |txt|
    ensures match Backtrack(now, stack)
      case Halted(_, _) => SearchStack(code, txt, stack, fuel) == Nowhere
      case Running(s) => s.at <= |txt| && SearchState(code, txt, s, fuel) == SearchStack(code, txt, stack, fuel)
  {
    hide Search;
    if stack != [] {
      var top, rest := stack[|stack| - 1], stack[..|stack| - 1];
      assert top in stack && forall f <- rest :: f in stack;
      if top.Dummy? { BacktrackSearch(code, now, rest, txt, fuel); }
    }
  }

  lemma {:induction false} PushSearch(code: Code, txt: Text, stack: seq<Frame>, f: Frame, fuel: nat)
    ensures SearchStack(code, txt, stack + [f], fuel) ==
      var first := if f.Live? && f.text <= |txt| then Search(code, txt, f.resume, f.text, fuel) else Nowhere;
      if first == Nowhere then SearchStack(code, txt, stack, fuel) else first
  {
    hide Search;
    assert (stack + [f])[..|stack|] == stack;
  }

  /** A step of the machine that moves no failure point: the search from the state after it, with
      one unit of fuel less, finds what the search from the state before it finds. */
  lemma {:induction false} StepSearch(code: Code, bounds: set<int>, opt: bool, s: State, txt: Text, fuel: nat)
    requires WellFormed(code, bounds) && Inv(code, bounds, s, txt)
    requires !Decode(s.code, s.pc).UpdateJump? && !(opt && CanUpdate(s.code, s.pc))
    ensures match Step(opt, s, txt)
      case Running(s') =>
        && s'.at <= |txt|
        && (SearchState(code, txt, s', fuel) != Unknown ==>
              SearchState(code, txt, s, fuel + 1) == SearchState(code, txt, s', fuel))
        && (SearchState(code, txt, s, fuel) != Unknown ==>
              SearchState(code, txt, s', fuel) == SearchState(code, txt, s, fuel))
      case Halted(o, _) =>
        && (o == NoMatch ==> SearchState(code, txt, s, fuel + 1) == Nowhere)
        && (o.Matched? ==> SearchState(code, txt, s, fuel + 1) == Found(o.end))
  {
    hide WellFormed, Decode, Next, Variant, CharOk, LoopOk, TestOk, CanUpdate, Patch, Backtrack, SearchStack, Outside;
    StepInv(code, bounds, opt, s, txt);
    var now := s.code;
    At(code, bounds, s.pc);
    VariantAt(code, bounds, now, s.pc);
    if SearchStack(code, txt, s.stack, fuel) != Unknown { SearchStackMore(code, txt, s.stack, fuel, fuel + 1); }
    match Decode(now, s.pc)
    case End =>
    case Read =>
      if s.at < |txt| && CharOk(now, s.pc, txt[s.at]) {
        SearchOn(code, txt, s, Next(now, s.pc), s.at + 1, fuel);
      } else { FailSearch(code, bounds, s, txt, fuel); }
    case Test(op) =>
      if TestOk(op, txt, s.at) { SearchOn(code, txt, s, Next(now, s.pc), s.at, fuel); }
      else { FailSearch(code, bounds, s, txt, fuel); }
    case Mark => SearchOn(code, txt, s, Next(now, s.pc), s.at, fuel);
    case Jump(t) => SearchOn(code, txt, s, t, s.at, fuel);
    case StarJump(t) =>
      if SearchState(code, txt, s, fuel) != Unknown { SearchStateMore(code, txt, s, fuel, fuel + 1); }
    case FailJump(t) => ForkSearch(code, txt, s, t, fuel);
    case DummyJump(t) =>
      VariantAt(code, bounds, now, s.pc + 3);
      PushSearch(code, txt, s.stack, Dummy(Decode(code, s.pc + 3).target), fuel);
      SearchOn(code, txt, s, t, s.at, fuel);
  }

  /** Failing here leaves what the failure points find. */
  lemma {:induction false} FailSearch(code: Code, bounds: set<int>, s: State, txt: Text, fuel: nat)
    requires Inv(code, bounds, s, txt) && Search(code, txt, s.pc, s.at, fuel + 1) == Nowhere
    ensures match Backtrack(s.code, s.stack)
      case Running(s') =>
        && s'.at <= |txt|
        && (SearchState(code, txt, s', fuel) != Unknown ==>
              SearchState(code, txt, s, fuel + 1) == SearchState(code, txt, s', fuel))
        && (SearchState(code, txt, s, fuel) != Unknown ==>
              SearchState(code, txt, s', fuel) == SearchState(code, txt, s, fuel))
      case Halted(o, _) => o == NoMatch && SearchState(code, txt, s, fuel + 1) == Nowhere
  {
    hide Search, SearchStack, Variant, LoopOk, Outside, Backtrack;
    BacktrackHalts(s.code, s.stack);
    BacktrackSearch(code, s.code, s.stack, txt, fuel);
    BacktrackSearch(code, s.code, s.stack, txt, fuel + 1);
    if SearchStack(code, txt, s.stack, fuel) != Unknown { SearchStackMore(code, txt, s.stack, fuel, fuel + 1); }
    if Search(code, txt, s.pc, s.at, fuel) != Unknown { SearchMore(code, txt, s.pc, s.at, fuel, fuel + 1); }
  }

  /** Going on with the same failure points. */
  lemma {:induction false} SearchOn(code: Code, txt: Text, s: State, q: int, i: nat, fuel: nat)
    requires s.at <= |txt| && i <= |txt|
    requires Search(code, txt, s.pc, s.at, fuel + 1) == Search(code, txt, q, i, fuel)
    ensures var s' := s.(pc := q, at := i);
      && (SearchState(code, txt, s', fuel) != Unknown ==>
            SearchState(code, txt, s, fuel + 1) == SearchState(code, txt, s', fuel))
      && (SearchState(code, txt, s, fuel) != Unknown ==>
            SearchState(code, txt, s', fuel) == SearchState(code, txt, s, fuel))
  {
    hide Search, SearchStack;
    if SearchStack(code, txt, s.stack, fuel) != Unknown { SearchStackMore(code, txt, s.stack, fuel, fuel + 1); }
    if Search(code, txt, s.pc, s.at, fuel) != Unknown { SearchMore(code, txt, s.pc, s.at, fuel, fuel + 1); }
  }

  /** Going on with one more failure point. */
  lemma {:induction false} ForkSearch(code: Code, txt: Text, s: State, t: int, fuel: nat)
    requires s.at <= |txt| && Decode(code, s.pc) == FailJump(t)
    ensures var s' := s.(pc := s.pc + 3, stack := s.stack + [Live(s.at, t)]);
      && (SearchState(code, txt, s', fuel) != Unknown ==>
            SearchState(code, txt, s, fuel + 1) == SearchState(code, txt, s', fuel))
      && (SearchState(code, txt, s, fuel) != Unknown ==>
            SearchState(code, txt, s', fuel) == SearchState(code, txt, s, fuel))
  {
    hide SearchStack, Decode, Next, CharOk, TestOk;
    PushSearch(code, txt, s.stack, Live(s.at, t), fuel);
    if SearchStack(code, txt, s.stack, fuel) != Unknown { SearchStackMore(code, txt, s.stack, fuel, fuel + 1); }
    if Search(code, txt, s.pc, s.at, fuel) != Unknown { SearchMore(code, txt, s.pc, s.at, fuel, fuel + 1); }
  }

  /** Moving the loop's failure point loses no answer: what the old one alone could find, the moved
      one finds first. */
  lemma {:induction false} UpdateSearch(code: Code, bounds: set<int>, s: State, txt: Text, fuel: nat)
    requires WellFormed(code, bounds) && Inv(code, bounds, s, txt) && CanUpdate(code, s.pc) && SafeExit(code, s.pc)
    requires SearchState(code, txt, s, fuel) != Unknown
    ensures Update(s, Head(code, s.pc)).Running?
    ensures SearchState(code, txt, Update(s, Head(code, s.pc)).state, fuel) == SearchState(code, txt, s, fuel)
  {
    hide WellFormed, Decode, Next, Variant, Reader, StraightTo, CharOk, FrameOk, FirstChar, SafeExit, Accepts, TestOk,
      Search, SearchStack;
    var q := s.pc;
    var h, n := Head(code, q), |s.stack| - 1;
    UpdateJumpInv(code, bounds, s, txt);
    BodyFacts(code, bounds, q, q);
    At(code, bounds, q);
    var top, moved, rest := s.stack[n], Live(s.at, q + 3), s.stack[..n];
    var s' := Update(s, h).state;
    assert s.stack == rest + [top] && s'.stack == rest + [moved];
    PushSearch(code, txt, rest, top, fuel);
    PushSearch(code, txt, rest, moved, fuel);
    LoopSearch(code, txt, q, s.at, fuel);
    assert LoopOk(code, q, s, txt);
    if Search(code, txt, q, s.at, fuel) == Nowhere && top.Live? {
      if Search(code, txt, q + 3, top.text, fuel).Found? {
        var k := Search(code, txt, q + 3, top.text, fuel).end;
        SearchDecides(code, txt, q + 3, top.text, k, fuel);
        DropSafe(code, bounds, txt, q, top.text, s.at, k);
        SearchDecides(code, txt, q + 3, s.at, s.at, fuel);
        assert false;
      }
    }
  }

  /** The search from a star jump goes through the loop's failure jump. */
  lemma {:induction false} LoopSearch(code: Code, txt: Text, q: int, i: nat, fuel: nat)
    requires i <= |txt| && Decode(code, q).StarJump? && Decode(code, Head(code, q) - 3) == FailJump(q + 3)
    requires Search(code, txt, q, i, fuel) != Unknown
    ensures Search(code, txt, Head(code, q), i, fuel) != Unknown
    ensures Search(code, txt, q, i, fuel) ==
      var first := Search(code, txt, Head(code, q), i, fuel);
      if first == Nowhere then Search(code, txt, q + 3, i, fuel) else first
  {
    hide Decode, Next, CharOk, TestOk;
    assert fuel >= 2;
    var first := Search(code, txt, Head(code, q), i, fuel - 2);
    SearchMore(code, txt, Head(code, q), i, fuel - 2, fuel);
    if first == Nowhere { SearchMore(code, txt, q + 3, i, fuel - 2, fuel); }
  }

  // ---- Whole runs -----------------------------------------------------------------------------------

  /** A run halts with what the search finds, if the search comes to an end. */
  lemma {:induction false} RunAgrees(code: Code, bounds: set<int>, opt: bool, s: State, txt: Text, n: nat, o: Outcome,
                                     later: Code, fuel: nat)
    requires WellFormed(code, bounds) && Inv(code, bounds, s, txt) && LoopsSafe(code, bounds)
    requires RunsTo(opt, s, txt, n, o, later) && o != Overflow
    requires SearchState(code, txt, s, fuel) != Unknown
    ensures Agrees(SearchState(code, txt, s, fuel), o)
    decreases n
  {
    hide WellFormed, Variant, FrameOk, LoopOk, Step, Search, SearchStack, LoopsSafe;
    StepInv(code, bounds, opt, s, txt);
    StepForward(code, bounds, opt, s, txt, fuel);
    match Step(opt, s, txt)
    case Halted(_, _) =>
    case Running(s') => RunAgrees(code, bounds, opt, s', txt, n - 1, o, later, fuel);
  }

  /** Every step, rewriting or not, keeps what the search finds. */
  lemma {:induction false} StepForward(code: Code, bounds: set<int>, opt: bool, s: State, txt: Text, fuel: nat)
    requires WellFormed(code, bounds) && Inv(code, bounds, s, txt) && LoopsSafe(code, bounds)
    requires SearchState(code, txt, s, fuel) != Unknown
    ensures match Step(opt, s, txt)
      case Running(s') => s'.at <= |txt| && SearchState(code, txt, s', fuel) == SearchState(code, txt, s, fuel)
      case Halted(o, _) => o != Overflow ==> Agrees(SearchState(code, txt, s, fuel), o)
  {
    hide WellFormed, Decode, Next, Variant, Reader, StraightTo, CharOk, FrameOk, OwnFrame, TestOk, FirstChar, Patch,
      Backtrack, SafeExit, Search, SearchStack, SearchState, Outside;
    StepInv(code, bounds, opt, s, txt);
    At(code, bounds, s.pc);
    VariantAt(code, bounds, s.code, s.pc);
    if Decode(s.code, s.pc).UpdateJump? {
      UpdateSearch(code, bounds, s, txt, fuel);
    } else if opt && CanUpdate(s.code, s.pc) {
      var q, t := s.pc, Decode(s.code, s.pc).target;
      UpdateSound(code, bounds, s.code, q);
      MakeUpdateJump(code, bounds, s.code, q);
      var later := Patch(s.code, q, CUPDATE_FAILURE_JUMP, t - q);
      CodeInv(code, bounds, s, txt, later);
      CodeSearch(code, txt, s, later, fuel);
      UpdateSearch(code, bounds, s.(code := later), txt, fuel);
    } else {
      StepSearch(code, bounds, opt, s, txt, fuel);
      SearchStateMore(code, txt, s, fuel, fuel + 1);
    }
  }

  lemma {:induction false} CodeSearch(code: Code, txt: Text, s: State, later: Code, fuel: nat)
    requires s.at <= |txt|
    ensures SearchState(code, txt, s.(code := later), fuel) == SearchState(code, txt, s, fuel)
  {
  }

  /** No star jump has been rewritten into an updating one. */
  ghost predicate NoUpdates(bounds: set<int>, now: Code) {
    forall p <- bounds :: !Decode(now, p).UpdateJump?
  }

  /** Without the optimisation, no updating jump ever appears. */
  lemma {:induction false} PlainStays(code: Code, bounds: set<int>, s: State, txt: Text)
    requires WellFormed(code, bounds) && Inv(code, bounds, s, txt) && NoUpdates(bounds, s.code)
    requires Step(false, s, txt).Running?
    ensures NoUpdates(bounds, Step(false, s, txt).state.code)
  {
    hide WellFormed, Next, Variant, CharOk, FrameOk, LoopOk, TestOk, Patch, Decode;
    BacktrackHalts(s.code, s.stack);
    if Decode(s.code, s.pc).StarJump? {
      MakeNormalJump(code, bounds, s.code, s.pc);
      VariantAt(code, bounds, s.code, s.pc);
      At(code, bounds, s.pc);
      var later := s.code[s.pc := CJUMP];
      forall p <- bounds ensures !Decode(later, p).UpdateJump? {
        if p != s.pc { OtherInstr(code, bounds, s.code, s.pc, later, p); }
      }
    }
  }

  /** A run of the machine that only ever makes plain jumps shows how much fuel the search needs. */
  lemma {:induction false} PlainRunSearch(code: Code, bounds: set<int>, s: State, txt: Text, n: nat, o: Outcome,
                                          later: Code)
    requires WellFormed(code, bounds) && Inv(code, bounds, s, txt) && NoUpdates(bounds, s.code)
    requires RunsTo(false, s, txt, n, o, later) && o != Overflow
    ensures Agrees(SearchState(code, txt, s, n), o)
    decreases n
  {
    hide WellFormed, Variant, FrameOk, LoopOk, Step, Search, SearchStack;
    StepInv(code, bounds, false, s, txt);
    StepSearch(code, bounds, false, s, txt, n - 1);
    match Step(false, s, txt)
    case Halted(_, _) =>
    case Running(s') =>
      PlainStays(code, bounds, s, txt);
      PlainRunSearch(code, bounds, s', txt, n - 1, o, later);
  }

  /** The machine that rewrites star jumps, on a program with any number of them rewritten already,
      gives the same answer as the machine that always makes plain jumps, when neither overflows. */
  lemma {:induction false} SameAnswer(code: Code, bounds: set<int>, now: Code, txt: Text, pos: nat, m: nat,
                                      plain: Outcome, c1: Code, n: nat, fast: Outcome, c2: Code)
    requires WellFormed(code, bounds) && Variant(code, bounds, now) && LoopsSafe(code, bounds) && pos <= |txt|
    requires RunsTo(false, Initial(code, pos), txt, m, plain, c1) && plain != Overflow
    requires RunsTo(true, Initial(now, pos), txt, n, fast, c2) && fast != Overflow
    ensures plain == fast
  {
    hide WellFormed, Variant, FrameOk, LoopOk, Step, Search, SearchStack, LoopsSafe, RunsTo, Inv;
    Fresh(code, bounds);
    InitialInv(code, bounds, code, pos, txt);
    InitialInv(code, bounds, now, pos, txt);
    FreshNoUpdates(code, bounds);
    PlainRunSearch(code, bounds, Initial(code, pos), txt, m, plain, c1);
    CodeSearch(code, txt, Initial(code, pos), now, m);
    RunAgrees(code, bounds, true, Initial(now, pos), txt, n, fast, c2, m);
  }

  lemma {:induction false} FreshNoUpdates(code: Code, bounds: set<int>)
    requires WellFormed(code, bounds)
    ensures NoUpdates(bounds, code)
  {
    hide WellFormed, Decode, Next;
    forall p <- bounds ensures !Decode(code, p).UpdateJump? { At(code, bounds, p); }
  }
}
