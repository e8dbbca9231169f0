/** The matcher itself: a loop over the code buffer with a growing failure stack. */
module RegexMatch {
  import opened RegexCode
  import opened RegexWellFormed
  import opened RegexMachine
  import opened RegexLoops
  import opened RegexRuns
  import opened RegexRank
  import opened RegexFastmap

  const INITIAL_FAILURES: nat := 128

  function Result(o: Outcome, pos: nat): int {
    match o
    case Matched(e) => e - pos
    case NoMatch => -1
    case Overflow => -2
    case Aborted => -3
  }

  /** Whatever the machine does from s, it does from s0 in `steps` more steps. */
  ghost predicate Leads(s0: State, s: State, txt: Text, steps: nat) {
    s0.at <= |txt| && s.at <= |txt|
    && forall n: nat, o, later :: RunsTo(true, s, txt, n, o, later) ==> RunsTo(true, s0, txt, n + steps, o, later)
  }

  lemma {:induction false} LeadsOn(s0: State, s: State, txt: Text, steps: nat)
    requires Leads(s0, s, txt, steps) && Step(true, s, txt).Running? && Step(true, s, txt).state.at <= |txt|
    ensures Leads(s0, Step(true, s, txt).state, txt, steps + 1)
  {
    hide Step;
    var s' := Step(true, s, txt).state;
    forall n: nat, o, later | RunsTo(true, s', txt, n, o, later)
      ensures RunsTo(true, s0, txt, n + (steps + 1), o, later)
    {
      assert RunsTo(true, s, txt, n + 1, o, later);
      assert n + 1 + steps == n + (steps + 1);
    }
  }

  lemma {:induction false} LeadsHalt(s0: State, s: State, txt: Text, steps: nat, o: Outcome, later: Code)
    requires Leads(s0, s, txt, steps) && Step(true, s, txt) == Halted(o, later)
    ensures RunsTo(true, s0, txt, 1 + steps, o, later)
  {
    hide Step;
    assert RunsTo(true, s, txt, 1, o, later);
  }

  /** The move from the initial failure points to the full-sized stack keeps every frame. */
  method Grow(stack: array<Frame>) returns (larger: array<Frame>)
    requires stack.Length == INITIAL_FAILURES
    ensures fresh(larger) && larger.Length == MAX_FAILURES && larger[..INITIAL_FAILURES] == stack[..]
  {
    larger := new Frame[MAX_FAILURES](_ => Dummy(0));
    var i := 0;
    while i < INITIAL_FAILURES
      invariant 0 <= i <= INITIAL_FAILURES && larger[..i] == stack[..i]
    {
      larger[i] := stack[i];
      i := i + 1;
    }
    assert stack[..] == stack[..INITIAL_FAILURES];
  }

  /** Pushes a failure point, first moving to the full-sized stack if the initial one is full. */
  method PushFrame(stack: array<Frame>, sp: nat, f: Frame) returns (room: bool, stack': array<Frame>)
    requires sp <= stack.Length && (stack.Length == INITIAL_FAILURES || stack.Length == MAX_FAILURES)
    modifies stack
    ensures stack' == stack || fresh(stack')
    ensures stack'.Length == INITIAL_FAILURES || stack'.Length == MAX_FAILURES
    ensures room <==> sp < MAX_FAILURES
    ensures room ==> sp < stack'.Length && stack'[..sp + 1] == old(stack[..sp]) + [f]
    ensures !room ==> stack' == stack && stack[..] == old(stack[..])
  {
    stack' := stack;
    if sp == stack.Length {
      if stack.Length == MAX_FAILURES { return false, stack; }
      stack' := Grow(stack);
      assert stack'[..sp] == stack[..sp];
    }
    stack'[sp] := f;
    room := true;
  }

  /** Pops failure points until one carries a text position. */
  method Pop(stack: array<Frame>, top: nat, ghost now: Code) returns (found: bool, f: Frame, sp: nat)
    requires top <= stack.Length
    ensures sp <= top
    ensures found ==> f.Live? && Backtrack(now, stack[..top]) == Running(State(now, f.resume, f.text, stack[..sp]))
    ensures !found ==> Backtrack(now, stack[..top]) == Halted(NoMatch, now)
  {
    sp := top;
    while sp != 0
      invariant sp <= top && Backtrack(now, stack[..sp]) == Backtrack(now, stack[..top])
    {
      sp := sp - 1;
      f := stack[sp];
      assert stack[..sp + 1][..sp] == stack[..sp];
      if f.Live? { return true, f, sp; }
    }
    return false, Dummy(0), 0;
  }


  ghost function RankOf(program: Code, txt: Text, s: State, floor: int): nat {
    if Weighable(|program|, |txt|, s.stack) && 0 <= floor <= |program|
    then Rank(|program|, |txt|, s.stack, floor) else 0
  }

  /** One turn of the loop, when it goes on: the invariant holds again and the measure is lower. */
  lemma {:induction false} Turn(program: Code, bounds: set<int>, s0: State, s: State, s': State, txt: Text,
                                floor: int, steps: nat)
    returns (floor': int)
    requires WellFormed(program, bounds) && Inv(program, bounds, s, txt) && OnTheWay(program, s, floor)
    requires Leads(s0, s, txt, steps) && Step(true, s, txt) == Running(s')
    ensures Inv(program, bounds, s', txt) && OnTheWay(program, s', floor') && Leads(s0, s', txt, steps + 1)
    ensures var r, r' := RankOf(program, txt, s, floor), RankOf(program, txt, s', floor');
      || r' < r || (r' == r && s'.pc > s.pc)
      || (r' == r && s'.pc == s.pc && StarsHere(s') < StarsHere(s))
    ensures s.pc < |program|
  {
    hide WellFormed, Variant, FrameOk, LoopOk, Leads, Step, Rank, Weighable;
    InvWeighable(program, bounds, s, txt);
    floor' := StepLowers(program, bounds, true, s, txt, floor);
    LeadsOn(s0, s, txt, steps);
  }

  lemma {:induction false} Start(program: Code, bounds: set<int>, now: Code, txt: Text, pos: nat)
    requires WellFormed(program, bounds) && Variant(program, bounds, now) && pos <= |txt|
    ensures Inv(program, bounds, Initial(now, pos), txt) && OnTheWay(program, Initial(now, pos), 0)
    ensures Leads(Initial(now, pos), Initial(now, pos), txt, 0)
  {
    hide WellFormed, Variant, FrameOk, LoopOk, Inv, RunsTo;
    InitialInv(program, bounds, now, pos, txt);
  }

  /** What the loop needs to know about the instruction it is about to run. */
  lemma {:induction false} Here(program: Code, bounds: set<int>, s: State, txt: Text)
    requires WellFormed(program, bounds) && Inv(program, bounds, s, txt)
    ensures s.pc in bounds && 0 <= s.pc < |s.code| && s.at <= |txt| && |s.stack| <= MAX_FAILURES
    ensures Variant(program, bounds, s.code)
    ensures Decode(s.code, s.pc) != Bad
    ensures Decode(s.code, s.pc).Test? ==> Next(s.code, s.pc) == s.pc + 1
    ensures Decode(s.code, s.pc).Mark? ==> Next(s.code, s.pc) == s.pc + 2
    ensures IsJump(Decode(s.code, s.pc)) ==> s.pc + 3 <= |s.code|
    ensures Decode(s.code, s.pc).DummyJump? ==> Decode(s.code, s.pc + 3).FailJump?
    ensures Decode(s.code, s.pc).UpdateJump? ==> s.stack != []
    ensures Decode(s.code, s.pc).StarJump? && CanUpdate(s.code, s.pc) ==> s.stack != []
  {
    hide WellFormed, Variant, FrameOk, CanUpdate, OwnFrame;
    At(program, bounds, s.pc);
    VariantAt(program, bounds, s.code, s.pc);
    VariantLength(program, bounds, s.code);
    PlainNext(program, bounds, s.code, s.pc);
    if Decode(s.code, s.pc).DummyJump? { VariantAt(program, bounds, s.code, s.pc + 3); }
    if Decode(s.code, s.pc).UpdateJump? { UpdateJumpInv(program, bounds, s, txt); }
    if Decode(s.code, s.pc).StarJump? && CanUpdate(s.code, s.pc) {
      UpdateSound(program, bounds, s.code, s.pc);
      UpdateJumpInv(program, bounds, s, txt);
    }
  }

  /** Cstar_jump: rewrites itself into the updating jump where the test allows that, and into a plain
      jump where it does not. */
  method StarTurn(buffer: array<Byte>, used: nat, ghost program: Code, ghost bounds: set<int>, pc: nat, at: nat,
                  stack: array<Frame>, sp: nat, t: int, ghost txt: Text)
    returns (pc': int)
    requires used <= buffer.Length && sp <= stack.Length && pc + 3 <= used && at <= |txt|
    requires WellFormed(program, bounds) && Variant(program, bounds, buffer[..used]) && pc in bounds
    requires Decode(buffer[..used], pc) == StarJump(t) && (CanUpdate(buffer[..used], pc) ==> sp > 0)
    modifies buffer, stack
    ensures Step(true, State(old(buffer[..used]), pc, at, old(stack[..sp])), txt)
      == Running(State(buffer[..used], pc', at, stack[..sp]))
  {
    hide WellFormed, Variant, CanUpdate, Decode, Lo, Hi, CharOk, TestOk, Backtrack, Next, Push;
    ghost var code, frames := buffer[..used], stack[..sp];
    pc' := pc;
    var update := TestUpdate(buffer, used, program, bounds, pc);
    if update {
      buffer[pc], buffer[pc + 1], buffer[pc + 2] := CUPDATE_FAILURE_JUMP, Lo(t - pc), Hi(t - pc);
      assert buffer[..used] == Patch(code, pc, CUPDATE_FAILURE_JUMP, t - pc);
      stack[sp - 1] := Live(at, stack[sp - 1].resume);
      assert stack[..sp] == frames[sp - 1 := Live(at, frames[sp - 1].resume)];
      pc' := t + 3;
    } else {
      buffer[pc] := CJUMP;
      assert buffer[..used] == code[pc := CJUMP];
    }
  }

  /** re_match_2 on one string: tries the compiled pattern at pos. The answer is what the machine
      answers, and the buffer is left as the machine rewrites it. */
  method ReMatch(buffer: array<Byte>, used: nat, ghost program: Code, ghost bounds: set<int>, txt: Text, pos: nat)
    returns (result: int, ghost outcome: Outcome, ghost steps: nat)
    requires used <= buffer.Length && WellFormed(program, bounds) && Variant(program, bounds, buffer[..used])
    requires pos <= |txt|
    modifies buffer
    ensures RunsTo(true, Initial(old(buffer[..used]), pos), txt, steps, outcome, buffer[..used])
    ensures result == Result(outcome, pos)
  {
    hide WellFormed, Variant, FrameOk, LoopOk, CanUpdate, Leads, Rank, Weighable, OnTheWay, Decode, RunsTo, Backtrack,
      CharOk, TestOk, Inv, RankOf, StarsHere, Lo, Hi, Next;
    var pc: int := 0;
    var at: nat, sp: nat := pos, 0;
    var stack := new Frame[INITIAL_FAILURES](_ => Dummy(0));
    steps := 0;
    ghost var floor, s0 := 0, Initial(buffer[..used], pos);
    Start(program, bounds, buffer[..used], txt, pos);
    assert stack[..0] == [];
    while true
      invariant fresh(stack) && sp <= stack.Length && (stack.Length == INITIAL_FAILURES || stack.Length == MAX_FAILURES)
      invariant Inv(program, bounds, State(buffer[..used], pc, at, stack[..sp]), txt)
      invariant OnTheWay(program, State(buffer[..used], pc, at, stack[..sp]), floor)
      invariant Leads(s0, State(buffer[..used], pc, at, stack[..sp]), txt, steps)
      decreases RankOf(program, txt, State(buffer[..used], pc, at, stack[..sp]), floor), |program| - pc,
        StarsHere(State(buffer[..used], pc, at, stack[..sp]))
    {
      var code := buffer[..used];
      ghost var s := State(code, pc, at, stack[..sp]);
      Here(program, bounds, s, txt);
      var failed := false;
      match Decode(code, pc) {
        case End =>
          LeadsHalt(s0, s, txt, steps, Matched(at), code);
          return at - pos, Matched(at), 1 + steps;
        case Read =>
          if at < |txt| && CharOk(code, pc, txt[at]) { pc, at := Next(code, pc), at + 1; } else { failed := true; }
        case Test(op) => if TestOk(op, txt, at) { pc := pc + 1; } else { failed := true; }
        case Mark => pc := pc + 2;
        case Jump(t) => pc := t;
        case UpdateJump(t) =>
          stack[sp - 1] := Live(at, stack[sp - 1].resume);
          assert stack[..sp] == s.stack[sp - 1 := Live(at, s.stack[sp - 1].resume)];
          pc := t;
        case StarJump(t) =>
          pc := StarTurn(buffer, used, program, bounds, pc, at, stack, sp, t, txt);
        case FailJump(t) =>
          var room;
          room, stack := PushFrame(stack, sp, Live(at, t));
          if !room {
            LeadsHalt(s0, s, txt, steps, Overflow, code);
            return -2, Overflow, 1 + steps;
          }
          pc, sp := pc + 3, sp + 1;
        case DummyJump(t) =>
          var room;
          room, stack := PushFrame(stack, sp, Dummy(Decode(code, pc + 3).target));
          if !room {
            LeadsHalt(s0, s, txt, steps, Overflow, code);
            return -2, Overflow, 1 + steps;
          }
          pc, sp := t, sp + 1;
        case Bad => assert false;
      }
      if failed {
        var found, f, left := Pop(stack, sp, code);
        if !found {
          LeadsHalt(s0, s, txt, steps, NoMatch, code);
          return -1, NoMatch, 1 + steps;
        }
        pc, at, sp := f.resume, f.text, left;
      }
      ghost var s' := State(buffer[..used], pc, at, stack[..sp]);
      assert Step(true, s, txt) == Running(s');
      floor := Turn(program, bounds, s0, s, s', txt, floor, steps);
      steps := steps + 1;
    }
  }
}
