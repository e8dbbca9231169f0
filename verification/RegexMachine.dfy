/** The backtracking matcher as a state machine over the byte code, which it rewrites as it runs. */
module RegexMachine {
  import opened RegexCode

  const MAX_FAILURES: nat := 4100

  /** A failure point. The dummy one pushed for `+` carries no text position yet. */
  datatype Frame = Live(text: nat, resume: int) | Dummy(resume: int)

  datatype State = State(code: Code, pc: int, at: nat, stack: seq<Frame>)

  datatype Outcome = Matched(end: nat) | NoMatch | Overflow | Aborted

  datatype Stepped = Running(state: State) | Halted(outcome: Outcome, code: Code)

  // ---- First characters --------------------------------------------------------------------

  /** The character analysis looks through every zero-width instruction but Ceol. */
  ghost predicate EpsStep(code: Code, p: int, y: int) {
    match Decode(code, p)
    case Test(op) => op != CEOL && y == Next(code, p)
    case Mark => y == Next(code, p)
    case FailJump(t) => y == p + 3 || y == t
    case Jump(t) => y == t
    case StarJump(t) => y == t
    case UpdateJump(t) => y == t
    case DummyJump(t) => y == t
    case _ => false
  }

  ghost predicate EpsReachIn(code: Code, p: int, x: int, n: nat)
    decreases n
  {
    if n == 0 then p == x else exists y :: EpsStep(code, p, y) && EpsReachIn(code, y, x, n - 1)
  }

  ghost predicate EpsReach(code: Code, p: int, x: int) {
    exists n: nat :: EpsReachIn(code, p, x, n)
  }

  /** The instruction at x may consume c, or is a Ceol and c is a newline. */
  predicate Contributes(code: Code, x: int, c: Byte) {
    match Decode(code, x)
    case Read => CharOk(code, x, c)
    case Test(op) => op == CEOL && c == NEWLINE
    case _ => false
  }

  /** c may be the first character of what is matched from p. */
  ghost predicate FirstChar(code: Code, p: int, c: Byte) {
    exists x :: EpsReach(code, p, x) && Contributes(code, x, c)
  }

  // ---- When a loop may keep a single failure point -----------------------------------------------

  /** The first instruction from p on that consumes a character, or -1 when something other than
      Cexact, Canychar or Cset stands in the way. */
  function Reader(code: Code, p: int): (f: int)
    ensures f == -1 || (p <= f && Decode(code, f).Read?)
    decreases |code| - p
  {
    match Decode(code, p)
    case Test(_) => Reader(code, Next(code, p))
    case Mark => Reader(code, Next(code, p))
    case Read => if code[p] == CEXACT || code[p] == CANYCHAR || code[p] == CSET then p else -1
    case _ => -1
  }

  /** Nothing but straight-line code from p up to q. */
  predicate StraightTo(code: Code, p: int, q: int)
    decreases |code| - p
  {
    p == q
    || match Decode(code, p)
       case Read => StraightTo(code, Next(code, p), q)
       case Test(_) => StraightTo(code, Next(code, p), q)
       case Mark => StraightTo(code, Next(code, p), q)
       case _ => false
  }

  /** The body of the loop closed by the star jump at q is straight-line code that surely consumes
      a character. */
  predicate StraightLoop(code: Code, q: int) {
    Decode(code, q).StarJump?
    && var f := Reader(code, Decode(code, q).target + 3);
       f != -1 && StraightTo(code, Next(code, f), q)
  }

  /** The run-time test for rewriting a star jump into an updating jump: in addition, no character
      the loop body starts with can be the first character after the loop. */
  ghost predicate CanUpdate(code: Code, q: int) {
    && StraightLoop(code, q)
    && var f := Reader(code, Decode(code, q).target + 3);
       forall c: Byte :: CharOk(code, f, c) ==> !FirstChar(code, q + 3, c)
  }

  // ---- One step --------------------------------------------------------------------------------

  /** Resume the topmost failure point that carries a text position. */
  function Backtrack(code: Code, stack: seq<Frame>): Stepped
    decreases |stack|
  {
    if stack == [] then Halted(NoMatch, code)
    else
      var top, rest := stack[|stack| - 1], stack[..|stack| - 1];
      if top.Dummy? then Backtrack(code, rest)
      else Running(State(code, top.resume, top.text, rest))
  }

  /** Move the topmost failure point, which the loop itself pushed, to the current position. */
  function Update(s: State, target: int): Stepped {
    if s.stack == [] then Halted(Aborted, s.code)
    else
      var n := |s.stack| - 1;
      Running(s.(pc := target, stack := s.stack[n := Live(s.at, s.stack[n].resume)]))
  }

  function Push(s: State, f: Frame, target: int): Stepped {
    if |s.stack| >= MAX_FAILURES then Halted(Overflow, s.code)
    else Running(s.(pc := target, stack := s.stack + [f]))
  }

  /** The three bytes of a jump at q replaced. */
  function Patch(code: Code, q: int, op: Byte, disp: int): Code
    requires 0 <= q && q + 3 <= |code|
  {
    code[q := op][q + 1 := Lo(disp)][q + 2 := Hi(disp)]
  }

  /** One turn of the matching loop. Without `opt`, star jumps only ever become plain jumps. */
  ghost function Step(opt: bool, s: State, txt: Text): Stepped
    requires s.at <= |txt|
  {
    match Decode(s.code, s.pc)
    case End => Halted(Matched(s.at), s.code)
    case Read =>
      if s.at < |txt| && CharOk(s.code, s.pc, txt[s.at])
      then Running(s.(pc := Next(s.code, s.pc), at := s.at + 1))
      else Backtrack(s.code, s.stack)
    case Test(op) =>
      if TestOk(op, txt, s.at) then Running(s.(pc := Next(s.code, s.pc))) else Backtrack(s.code, s.stack)
    case Mark => Running(s.(pc := Next(s.code, s.pc)))
    case Jump(t) => Running(s.(pc := t))
    case StarJump(t) =>
      if opt && CanUpdate(s.code, s.pc)
      then Update(s.(code := Patch(s.code, s.pc, CUPDATE_FAILURE_JUMP, t - s.pc)), t + 3)
      else Running(s.(code := s.code[s.pc := CJUMP]))
    case UpdateJump(t) => Update(s, t)
    case FailJump(t) => Push(s, Live(s.at, t), s.pc + 3)
    case DummyJump(t) =>
      if Decode(s.code, s.pc + 3).FailJump?
      then Push(s, Dummy(Decode(s.code, s.pc + 3).target), t)
      else Halted(Aborted, s.code)
    case Bad => Halted(Aborted, s.code)
  }

  /** The machine halts within n steps with this outcome, leaving this code. */
  ghost predicate RunsTo(opt: bool, s: State, txt: Text, n: nat, outcome: Outcome, code: Code)
    requires s.at <= |txt|
    decreases n
  {
    n > 0
    && match Step(opt, s, txt)
       case Halted(o, c) => o == outcome && c == code
       case Running(s') => s'.at <= |txt| && RunsTo(opt, s', txt, n - 1, outcome, code)
  }

  function Initial(code: Code, pos: nat): State {
    State(code, 0, pos, [])
  }
}
