/** The code emitted so far, at every moment of compilation: the layout of the frames of the parser,
    with holes where the jumps out of finished alternatives will go. */
module RegexLayout {
  import opened RegexCode
  import opened RegexAst
  import opened RegexSyntax

  /** Precedence levels of `|` and of `^` and `$`. */
  function OrLevel(tight: bool): nat {
    if tight then 3 else 2
  }

  function LowLevel(tight: bool): nat {
    if tight then 2 else 3
  }

  const HOLE: Code := [CJUMP, 0, 0]

  /** A finished alternative: a failure jump past it, its code, and a jump yet to be filled in. */
  function HoleCode(a: Regex): Code {
    JumpCode(CFAILURE_JUMP, Len(a) + 3) + Emit(a) + HOLE
  }

  function HolesCode(alts: seq<Regex>): Code {
    if alts == [] then [] else HolesCode(alts[..|alts| - 1]) + HoleCode(alts[|alts| - 1])
  }

  function HolesLen(alts: seq<Regex>): nat {
    if alts == [] then 0 else HolesLen(alts[..|alts| - 1]) + Len(alts[|alts| - 1]) + 6
  }

  function FrameCode(f: Frame): Code {
    Emit(f.done) + HolesCode(f.alts) + Emit(f.cat) + Emit(f.last)
  }

  function OpenCode(reg: Byte): Code {
    if reg == 0 then [] else [CSTART_MEMORY, reg]
  }

  function OuterCode(outer: seq<(Frame, Byte)>): Code {
    if outer == [] then []
    else
      var n := |outer| - 1;
      OuterCode(outer[..n]) + FrameCode(outer[n].0) + OpenCode(outer[n].1)
  }

  function StateCode(st: Parse): Code {
    OuterCode(st.outer) + FrameCode(st.top)
  }

  lemma {:induction false} HolesLength(alts: seq<Regex>)
    ensures |HolesCode(alts)| == HolesLen(alts)
  {
    if alts != [] { HolesLength(alts[..|alts| - 1]); }
  }

  function FrameLen(f: Frame): nat {
    Len(f.done) + HolesLen(f.alts) + Len(f.cat) + Len(f.last)
  }

  lemma {:induction false} FrameLength(f: Frame)
    ensures |FrameCode(f)| == FrameLen(f)
  {
    hide Emit, HolesCode, HolesLen;
    HolesLength(f.alts);
  }

  lemma {:induction false} OuterLength(outer: seq<(Frame, Byte)>)
    requires outer != []
    ensures var n := |outer| - 1;
      |OuterCode(outer)| == |OuterCode(outer[..n])| + FrameLen(outer[n].0) + |OpenCode(outer[n].1)|
  {
    hide FrameCode, OpenCode;
    FrameLength(outer[|outer| - 1].0);
  }

  // ---- Where the holes are ---------------------------------------------------------------------------

  /** The addresses waiting in the holes of alternatives whose code starts at `from`. */
  function Spots(from: nat, alts: seq<Regex>): seq<nat> {
    if alts == [] then []
    else Spots(from, alts[..|alts| - 1]) + [from + HolesLen(alts) - 2]
  }

  function OuterSpots(outer: seq<(Frame, Byte)>): seq<nat> {
    if outer == [] then []
    else
      var n := |outer| - 1;
      OuterSpots(outer[..n]) + Spots(|OuterCode(outer[..n])| + Len(outer[n].0.done), outer[n].0.alts)
  }

  function AllSpots(st: Parse): seq<nat> {
    OuterSpots(st.outer) + Spots(|OuterCode(st.outer)| + Len(st.top.done), st.top.alts)
  }

  lemma {:induction false} SpotsSize(from: nat, alts: seq<Regex>)
    ensures |Spots(from, alts)| == |alts|
    ensures forall s <- Spots(from, alts) :: from + 4 <= s && s + 2 <= from + HolesLen(alts)
  {
    if alts != [] { SpotsSize(from, alts[..|alts| - 1]); }
  }

  lemma {:induction false} OuterSpotsSize(outer: seq<(Frame, Byte)>)
    ensures |OuterSpots(outer)| == Pending(outer)
    ensures forall s <- OuterSpots(outer) :: s + 2 <= |OuterCode(outer)|
  {
    hide FrameCode, OpenCode, OuterCode, Spots, HolesLen;
    if outer != [] {
      var n := |outer| - 1;
      OuterSpotsSize(outer[..n]);
      SpotsSize(|OuterCode(outer[..n])| + Len(outer[n].0.done), outer[n].0.alts);
      OuterLength(outer);
    }
  }

  // ---- Where the levels start --------------------------------------------------------------------------

  /** The recorded level starts of one frame whose code begins at base, when `level` is current. */
  ghost predicate LevelsOk(tight: bool, f: Frame, base: nat, starts: seq<nat>, sb: nat, level: nat) {
    var a := base + Len(f.done);
    var p := a + HolesLen(f.alts);
    var q := p + Len(f.cat);
    && sb + 5 <= |starts| && level <= 4
    && starts[sb] == base && (level >= 1 ==> starts[sb + 1] == base)
    && (level >= 4 ==> starts[sb + 4] == q)
    && (level < 4 ==> Len(f.last) == 0)
    && (level < OrLevel(tight) ==> f.alts == [] && Len(f.cat) == 0)
    && (level < 2 ==> Len(f.done) == 0)
    && (level >= OrLevel(tight) ==> starts[sb + OrLevel(tight)] == p)
    && (if tight then level >= 2 ==> base <= starts[sb + 2] <= a
        else (level >= 3 ==> p <= starts[sb + 3] <= q + Len(f.last)) && Len(f.done) == 0)
  }

  ghost predicate OuterLevelsOk(tight: bool, outer: seq<(Frame, Byte)>, starts: seq<nat>) {
    forall k :: 0 <= k < |outer| ==>
      Len(outer[k].0.last) == 0 && LevelsOk(tight, outer[k].0, |OuterCode(outer[..k])|, starts, 5 * k, 4)
  }

  /** The registers of the groups being read, innermost last. Once they run out, groups have none. */
  ghost predicate OpenOk(outer: seq<(Frame, Byte)>, opens: seq<Byte>, next: nat) {
    && 1 <= next <= RE_NREGS && |opens| <= |outer| && |opens| < next
    && (forall k :: 0 <= k < |opens| ==> outer[k].1 == opens[k] != 0)
    && (forall k :: |opens| <= k < |outer| ==> outer[k].1 == 0)
    && (|opens| < |outer| ==> next == RE_NREGS)
  }

  /** The variables of the compiler. */
  datatype Vars = Vars(code: Code, starts: seq<nat>, jumps: seq<nat>, base: nat, level: nat,
                       next: nat, opens: seq<Byte>, depth: nat)

  /** The compiler's variables agree with the parse, except for the levels of the current frame. */
  ghost predicate Agree(tight: bool, st: Parse, v: Vars) {
    && |v.starts| == 5 * MAX_NESTING && |st.outer| < MAX_NESTING
    && v.base == 5 * |st.outer| && v.depth == |st.outer|
    && v.code == StateCode(st) && v.jumps == AllSpots(st) && |v.jumps| <= MAX_NESTING
    && v.next == st.nextRegister && OpenOk(st.outer, v.opens, v.next)
    && OuterLevelsOk(tight, st.outer, v.starts)
  }

  /** The compiler's variables agree with the parse. */
  ghost predicate Consistent(tight: bool, st: Parse, v: Vars) {
    Agree(tight, st, v) && LevelsOk(tight, st.top, |OuterCode(st.outer)|, v.starts, v.base, v.level)
  }

  lemma {:induction false} OuterUntouched(tight: bool, outer: seq<(Frame, Byte)>, starts: seq<nat>, starts': seq<nat>)
    requires OuterLevelsOk(tight, outer, starts) && |starts'| == |starts|
    requires forall i :: 0 <= i < 5 * |outer| && i < |starts| ==> starts'[i] == starts[i]
    ensures OuterLevelsOk(tight, outer, starts')
  {
    hide OuterCode, HolesLen, Len;
  }

  // ---- Changing the level --------------------------------------------------------------------------------

  /** Settling a frame whose operand (and alternatives) are empty changes nothing. */
  lemma {:induction false} SettledSame(f: Frame, alternatives: bool)
    requires !alternatives || f.alts == []
    ensures FrameCode(Settled(f, alternatives)) == FrameCode(f)
    ensures HolesLen(Settled(f, alternatives).alts) == if alternatives then 0 else HolesLen(f.alts)
  {
    assert Emit(Cat(f.cat, f.last)) == Emit(f.cat) + Emit(f.last);
    if alternatives {
      assert Emit(Whole(f)) == Emit(f.done) + (Emit(f.cat) + Emit(f.last));
      assert HolesCode(f.alts) == [] && HolesCode([]) == [];
    }
  }

  /** The starts recorded on the way up to a higher level. */
  function Raised(starts: seq<nat>, sb: nat, low: nat, high: nat, at: nat): (r: seq<nat>)
    requires sb + high < |starts|
    ensures |r| == |starts|
    ensures forall i :: 0 <= i < |starts| ==> r[i] == if sb + low < i <= sb + high then at else starts[i]
    decreases high
  {
    if high <= low then starts else Raised(starts, sb, low, high - 1, at)[sb + high := at]
  }

  lemma {:induction false} StateLength(st: Parse)
    ensures |StateCode(st)| == |OuterCode(st.outer)| + FrameLen(st.top)
  {
    hide OuterCode, FrameCode, FrameLen;
    FrameLength(st.top);
  }

  lemma {:induction false} RaiseOk(tight: bool, st: Parse, v: Vars, level: nat)
    requires Consistent(tight, st, v) && v.level <= level <= 4
    ensures Consistent(tight, st, v.(starts := Raised(v.starts, v.base, v.level, level, |v.code|), level := level))
  {
    hide OuterCode, FrameCode, HolesLen, Len, AllSpots, StateCode, OuterLevelsOk, OpenOk;
    StateLength(st);
    OuterUntouched(tight, st.outer, v.starts, Raised(v.starts, v.base, v.level, level, |v.code|));
    if st.top.alts == [] { HolesLength(st.top.alts); NoHoles(); }
  }

  lemma {:induction false} NoHoles()
    ensures HolesLen([]) == 0 && HolesCode([]) == []
    ensures forall from: nat :: Spots(from, []) == []
  {
  }

  /** Settling a frame that has nothing to settle, at the level that settles it. */
  lemma {:induction false} SettleOk(tight: bool, st: Parse, v: Vars, alternatives: bool)
    requires Consistent(tight, st, v) && v.level < 4 && alternatives == (v.level < OrLevel(tight))
    ensures var st' := st.(top := Settled(st.top, alternatives));
      Agree(tight, st', v) && (v.level >= 2 ==> Consistent(tight, st', v))
  {
    hide OuterCode, FrameCode, OuterLevelsOk, OpenOk, HolesLen, Spots, OuterSpots;
    SettledSame(st.top, alternatives);
    NoHoles();
  }

  /** Going down to a level at which the alternatives stay pending. */
  lemma {:induction false} LowerOk(tight: bool, st: Parse, v: Vars, level: nat)
    requires Consistent(tight, st, v) && OrLevel(tight) <= level < v.level
    ensures Consistent(tight, st.(top := Settled(st.top, false)), v.(level := level))
  {
    hide OuterCode, FrameCode, OuterLevelsOk, OpenOk, HolesLen, Spots, OuterSpots;
    SettledSame(st.top, false);
  }

  // ---- Filling in the jumps of finished alternatives --------------------------------------------------------

  /** PUT_ADDR: the displacement that leads from the two bytes at off to addr. */
  function PutAddr(code: Code, off: nat, addr: int): Code
    requires off + 2 <= |code|
  {
    code[off := Lo(addr - off - 2)][off + 1 := Hi(addr - off - 2)]
  }

  lemma {:induction false} FillHole(x: Code, r: Code)
    ensures PutAddr(x + HOLE + r, |x| + 1, |x| + 3 + |r|) == x + JumpCode(CJUMP, |r|) + r
  {
    hide Lo, Hi;
    assert HOLE == [CJUMP, 0, 0];
  }

  /** The code when all but the first m holes have been filled. */
  function PatchedCode(st: Parse, m: nat): Code
    requires m <= |st.top.alts|
  {
    OuterCode(st.outer) + Emit(st.top.done) + HolesCode(st.top.alts[..m])
    + Emit(AltOf(st.top.alts[m..], Cat(st.top.cat, st.top.last)))
  }

  lemma {:induction false} PatchStart(st: Parse)
    ensures PatchedCode(st, |st.top.alts|) == StateCode(st)
  {
    hide OuterCode, HolesCode;
    var f := st.top;
    assert f.alts[..|f.alts|] == f.alts && f.alts[|f.alts|..] == [];
    assert Emit(Cat(f.cat, f.last)) == Emit(f.cat) + Emit(f.last);
  }

  lemma {:induction false} PatchStep(st: Parse, m: nat)
    requires 0 < m <= |st.top.alts|
    ensures var code := PatchedCode(st, m);
      var spot := |OuterCode(st.outer)| + Len(st.top.done) + HolesLen(st.top.alts[..m]) - 2;
      spot >= 0 && spot + 2 <= |code| && PutAddr(code, spot, |code|) == PatchedCode(st, m - 1)
  {
    hide OuterCode, HolesCode, HolesLen, JumpCode, Lo, Hi, Emit, AltOf, PutAddr, HOLE;
    var f := st.top;
    var a := f.alts[m - 1];
    var c := Cat(f.cat, f.last);
    var before := OuterCode(st.outer) + Emit(f.done) + HolesCode(f.alts[..m - 1]);
    var r := Emit(AltOf(f.alts[m..], c));
    HolesLength(f.alts[..m]);
    HolesLength(f.alts[..m - 1]);
    LastHole(f.alts, m);
    var x := before + (JumpCode(CFAILURE_JUMP, Len(a) + 3) + Emit(a));
    assert PatchedCode(st, m) == x + HOLE + r;
    HoleSize();
    FillHole(x, r);
    FirstAlt(f.alts, m, c);
    assert PatchedCode(st, m - 1) == before + Emit(AltOf(f.alts[m - 1..], c));
    assert before + (JumpCode(CFAILURE_JUMP, Len(a) + 3) + Emit(a) + JumpCode(CJUMP, |r|) + r)
      == x + JumpCode(CJUMP, |r|) + r;
  }

  lemma {:induction false} HoleSize()
    ensures |HOLE| == 3
    ensures forall op, d :: |JumpCode(op, d)| == 3
  {
  }

  lemma {:induction false} LastHole(alts: seq<Regex>, m: nat)
    requires 0 < m <= |alts|
    ensures HolesCode(alts[..m]) ==
      HolesCode(alts[..m - 1]) + (JumpCode(CFAILURE_JUMP, Len(alts[m - 1]) + 3) + Emit(alts[m - 1]) + HOLE)
    ensures HolesLen(alts[..m]) == HolesLen(alts[..m - 1]) + Len(alts[m - 1]) + 6
  {
    hide JumpCode, Emit, HOLE;
    assert alts[..m][..m - 1] == alts[..m - 1];
  }

  lemma {:induction false} FirstAlt(alts: seq<Regex>, m: nat, c: Regex)
    requires 0 < m <= |alts|
    ensures var r := Emit(AltOf(alts[m..], c));
      Emit(AltOf(alts[m - 1..], c)) ==
        JumpCode(CFAILURE_JUMP, Len(alts[m - 1]) + 3) + Emit(alts[m - 1]) + JumpCode(CJUMP, |r|) + r
  {
    hide JumpCode;
    assert alts[m - 1..][1..] == alts[m..];
  }

  lemma {:induction false} PatchEnd(st: Parse)
    ensures PatchedCode(st, 0) == StateCode(st.(top := Settled(st.top, true)))
  {
    hide OuterCode;
    var f := st.top;
    assert f.alts[..0] == [] && f.alts[0..] == f.alts;
    NoHoles();
    assert Emit(Whole(f)) == Emit(f.done) + Emit(AltOf(f.alts, Cat(f.cat, f.last)));
  }

  /** The spot of hole m - 1 of the current frame, and the fact that all others lie below its code. */
  lemma {:induction false} SpotAt(tight: bool, st: Parse, v: Vars, n: nat)
    requires Consistent(tight, st, v) && 0 < n <= |v.jumps|
    ensures |v.jumps| == Pending(st.outer) + |st.top.alts|
    ensures n <= Pending(st.outer) ==> v.jumps[n - 1] + 2 <= |OuterCode(st.outer)|
    ensures n > Pending(st.outer) ==>
      var m := n - Pending(st.outer);
      var a := |OuterCode(st.outer)| + Len(st.top.done);
      v.jumps[n - 1] == a + HolesLen(st.top.alts[..m]) - 2 && v.jumps[n - 1] >= a
  {
    hide OuterCode, HolesLen, OuterSpots, Spots, OuterLevelsOk, OpenOk, LevelsOk, StateCode;
    OuterSpotsSize(st.outer);
    var a := |OuterCode(st.outer)| + Len(st.top.done);
    SpotsSize(a, st.top.alts);
    if n > Pending(st.outer) {
      NthSpot(a, st.top.alts, n - Pending(st.outer));
    } else {
      assert OuterSpots(st.outer)[n - 1] in OuterSpots(st.outer);
    }
  }

  lemma {:induction false} NthSpot(from: nat, alts: seq<Regex>, m: nat)
    requires 0 < m <= |alts|
    ensures |Spots(from, alts)| == |alts| && Spots(from, alts)[m - 1] == from + HolesLen(alts[..m]) - 2
    ensures from <= Spots(from, alts)[m - 1]
  {
    SpotsSize(from, alts);
    if m == |alts| {
      assert alts[..m] == alts;
    } else {
      assert alts[..|alts| - 1][..m] == alts[..m];
      NthSpot(from, alts[..|alts| - 1], m);
    }
    assert Spots(from, alts)[m - 1] in Spots(from, alts);
  }

  /** All alternatives of the current frame filled in, at a level below that of `|`. */
  lemma {:induction false} PatchedOk(tight: bool, st: Parse, v: Vars, level: nat)
    requires Consistent(tight, st, v) && level < v.level && level < OrLevel(tight)
    ensures var st' := st.(top := Settled(st.top, true));
      var v' := v.(code := PatchedCode(st, 0), jumps := OuterSpots(st.outer), level := level);
      Agree(tight, st', v') && (level == 2 ==> Consistent(tight, st', v'))
  {
    hide OuterCode, FrameCode, OuterLevelsOk, OpenOk, HolesLen, StateCode, PatchedCode, OuterSpots, Len;
    PatchEnd(st);
    OuterSpotsSize(st.outer);
    NoHoles();
    WholeLength(st.top);
  }

  lemma {:induction false} WholeLength(f: Frame)
    ensures Len(Whole(f)) >= Len(f.done) && Len(Empty) == 0
  {
  }

  // ---- One token ---------------------------------------------------------------------------------------------

  /** INSERT_JUMP: the code from p on moves up to make room for a jump to addr. */
  function Insert(code: Code, p: nat, op: Byte, addr: int): Code
    requires p <= |code|
  {
    code[..p] + JumpCode(op, addr - (p + 1) - 2) + code[p..]
  }

  lemma {:induction false} InsertBefore(x: Code, e: Code, op: Byte, addr: int)
    ensures Insert(x + e, |x|, op, addr) == x + (JumpCode(op, addr - |x| - 3) + e)
  {
    hide JumpCode;
    assert (x + e)[..|x|] == x && (x + e)[|x|..] == e;
  }

  /** The code before the operand of a postfix operator. */
  function Before(st: Parse): Code {
    OuterCode(st.outer) + Emit(st.top.done) + HolesCode(st.top.alts) + Emit(st.top.cat)
  }

  lemma {:induction false} BeforeOperand(st: Parse, r: Regex)
    ensures StateCode(st.(top := st.top.(last := r))) == Before(st) + Emit(r)
    ensures |Before(st)| == |OuterCode(st.outer)| + Len(st.top.done) + HolesLen(st.top.alts) + Len(st.top.cat)
  {
    hide OuterCode, HolesCode, HolesLen, Emit;
    HolesLength(st.top.alts);
  }

  /** Replacing the operand keeps everything else. */
  lemma {:induction false} OperandOk(tight: bool, st: Parse, v: Vars, r: Regex)
    requires Consistent(tight, st, v) && v.level == 4 && Len(r) >= Len(st.top.last)
    ensures Consistent(tight, st.(top := st.top.(last := r)), v.(code := Before(st) + Emit(r)))
    ensures v.code == Before(st) + Emit(st.top.last) && |Before(st)| == v.starts[v.base + 4]
  {
    hide OuterCode, HolesCode, HolesLen, Emit, OuterLevelsOk, OpenOk, StateCode, Before, AllSpots, Len;
    BeforeOperand(st, r);
    BeforeOperand(st, st.top.last);
    SameTop(st);
    SameSpots(st, st.(top := st.top.(last := r)));
  }

  lemma {:induction false} SameTop(st: Parse)
    ensures st.(top := st.top.(last := st.top.last)) == st
  {
  }

  /** The holes depend on what precedes the current alternative only. */
  lemma {:induction false} SameSpots(st: Parse, st': Parse)
    requires st'.outer == st.outer && st'.top.done == st.top.done && st'.top.alts == st.top.alts
    ensures AllSpots(st') == AllSpots(st)
  {
    hide OuterSpots, OuterCode, Spots, Len;
  }

  lemma {:induction false} EmitLoops(r: Regex)
    ensures Emit(Opt(r)) == JumpCode(CFAILURE_JUMP, |Emit(r)|) + Emit(r)
    ensures Emit(Star(r)) == StarCode(Emit(r))
    ensures Emit(Plus(r)) == JumpCode(CDUMMY_FAILURE_JUMP, 3) + Emit(Star(r))
  {
    hide JumpCode, StarCode;
  }

  lemma {:induction false} OptInserted(x: Code, r: Regex)
    ensures Insert(x + Emit(r), |x|, CFAILURE_JUMP, |x| + |Emit(r)| + 3) == x + Emit(Opt(r))
  {
    hide JumpCode, Insert, Emit;
    EmitLoops(r);
    InsertBefore(x, Emit(r), CFAILURE_JUMP, |x| + |Emit(r)| + 3);
  }

  lemma {:induction false} StarInserted(x: Code, r: Regex)
    ensures var c := Insert(x + Emit(r), |x|, CFAILURE_JUMP, |x| + |Emit(r)| + 6);
      Insert(c, |c|, CSTAR_JUMP, |x|) == x + Emit(Star(r))
  {
    hide StarCode, Insert, Emit;
    EmitLoops(r);
    LoopInserted(x, Emit(r));
  }

  lemma {:induction false} LoopInserted(x: Code, e: Code)
    ensures var c := Insert(x + e, |x|, CFAILURE_JUMP, |x| + |e| + 6);
      Insert(c, |c|, CSTAR_JUMP, |x|) == x + StarCode(e)
  {
    hide JumpCode, Insert;
    InsertBefore(x, e, CFAILURE_JUMP, |x| + |e| + 6);
    var c := x + (JumpCode(CFAILURE_JUMP, |e| + 3) + e);
    HoleSize();
    InsertBefore(c, [], CSTAR_JUMP, |x|);
    assert c + [] == c;
    var j := JumpCode(CSTAR_JUMP, -(|e| + 6));
    assert j + [] == j;
    assert c + j == x + (JumpCode(CFAILURE_JUMP, |e| + 3) + e + j);
  }

  lemma {:induction false} PlusInserted(x: Code, r: Regex)
    ensures Insert(x + Emit(Star(r)), |x|, CDUMMY_FAILURE_JUMP, |x| + 6) == x + Emit(Plus(r))
  {
    hide JumpCode, StarCode, Insert, Emit;
    EmitLoops(r);
    InsertBefore(x, Emit(Star(r)), CDUMMY_FAILURE_JUMP, |x| + 6);
  }

  /** SET_LEVEL_START and one instruction, at the level of ordinary characters. */
  lemma {:induction false} AtomOk(tight: bool, st: Parse, v: Vars, a: Atom)
    requires Consistent(tight, st, v) && v.level == 4
    ensures Consistent(tight, st.(top := st.top.(cat := Cat(st.top.cat, st.top.last), last := Leaf(a))),
      v.(code := v.code + EmitAtom(a), starts := v.starts[v.base + 4 := |v.code|]))
  {
    hide OuterCode, HolesCode, OuterLevelsOk, OpenOk, AllSpots, StateCode, FrameLen, LevelsOk;
    var f := st.top;
    var st' := st.(top := f.(cat := Cat(f.cat, f.last), last := Leaf(a)));
    StateLength(st);
    AtomLevels(tight, f, |OuterCode(st.outer)|, v.starts, v.base, a);
    OuterUntouched(tight, st.outer, v.starts, v.starts[v.base + 4 := |v.code|]);
    SameSpots(st, st');
    AtomCode(st, a);
  }

  lemma {:induction false} AtomLevels(tight: bool, f: Frame, base: nat, starts: seq<nat>, sb: nat, a: Atom)
    requires LevelsOk(tight, f, base, starts, sb, 4)
    ensures LevelsOk(tight, f.(cat := Cat(f.cat, f.last), last := Leaf(a)), base,
                     starts[sb + 4 := base + FrameLen(f)], sb, 4)
  {
    hide HolesLen, Len;
    CatLength(f.cat, f.last);
  }

  lemma {:induction false} CatLength(x: Regex, y: Regex)
    ensures Len(Cat(x, y)) == Len(x) + Len(y)
  {
  }

  lemma {:induction false} AtomCode(st: Parse, a: Atom)
    ensures StateCode(st.(top := st.top.(cat := Cat(st.top.cat, st.top.last), last := Leaf(a))))
      == StateCode(st) + EmitAtom(a)
  {
    hide OuterCode, HolesCode, EmitAtom;
    var f := st.top;
    assert Emit(Cat(f.cat, f.last)) == Emit(f.cat) + Emit(f.last);
  }

  /** The same at the level of `^` and `$`. */
  lemma {:induction false} LowOk(tight: bool, st: Parse, v: Vars, a: Atom)
    requires Consistent(tight, st, v) && v.level == LowLevel(tight) && st.top.last == Empty
    requires tight ==> st.top.alts == [] && st.top.cat == Empty
    ensures var f := st.top;
      Consistent(tight,
        st.(top := if tight then f.(done := Cat(f.done, Leaf(a))) else f.(cat := Cat(f.cat, Leaf(a)))),
        v.(code := v.code + EmitAtom(a), starts := v.starts[v.base + LowLevel(tight) := |v.code|]))
  {
    hide OuterCode, HolesCode, HolesLen, EmitAtom, OuterLevelsOk, OpenOk, OuterSpots, StateCode, Emit, Spots;
    StateLength(st);
    OuterUntouched(tight, st.outer, v.starts, v.starts[v.base + LowLevel(tight) := |v.code|]);
    LowCode(tight, st, a);
    NoHoles();
  }

  lemma {:induction false} LowCode(tight: bool, st: Parse, a: Atom)
    requires st.top.last == Empty && (tight ==> st.top.alts == [] && st.top.cat == Empty)
    ensures var f := st.top;
      StateCode(st.(top := if tight then f.(done := Cat(f.done, Leaf(a))) else f.(cat := Cat(f.cat, Leaf(a)))))
      == StateCode(st) + EmitAtom(a)
  {
    hide OuterCode, HolesCode, EmitAtom;
    var f := st.top;
    NoHoles();
    if tight {
      assert Emit(Cat(f.done, Leaf(a))) == Emit(f.done) + EmitAtom(a);
    } else {
      assert Emit(Cat(f.cat, Leaf(a))) == Emit(f.cat) + EmitAtom(a);
    }
  }

  lemma {:induction false} OrInserted(x: Code, c: Regex)
    ensures Insert(x + Emit(c), |x|, CFAILURE_JUMP, |x| + |Emit(c)| + 6) + HOLE == x + HoleCode(c)
  {
    hide JumpCode, HOLE, Insert, Emit;
    var e := Emit(c);
    InsertBefore(x, e, CFAILURE_JUMP, |x| + |e| + 6);
    assert x + (JumpCode(CFAILURE_JUMP, |e| + 3) + e) + HOLE == x + (JumpCode(CFAILURE_JUMP, |e| + 3) + e + HOLE);
  }

  /** An alternative finished, with room for one more pending jump. */
  lemma {:induction false} OrOk(tight: bool, st: Parse, v: Vars)
    requires Consistent(tight, st, v) && v.level == OrLevel(tight) && st.top.last == Empty && |v.jumps| < MAX_NESTING
    ensures var f := st.top;
      var p := v.starts[v.base + OrLevel(tight)];
      && p <= |v.code|
      && var c := Insert(v.code, p, CFAILURE_JUMP, |v.code| + 6);
      Consistent(tight, st.(top := f.(alts := f.alts + [f.cat], cat := Empty)),
        v.(code := c + HOLE, jumps := v.jumps + [|c| + 1], starts := v.starts[v.base + OrLevel(tight) := |c| + 3]))
  {
    hide OuterCode, HolesCode, OuterLevelsOk, OpenOk, AllSpots, HoleCode, Insert, HOLE, Emit, StateCode, HolesLen,
      Len;
    var f := st.top;
    var p := v.starts[v.base + OrLevel(tight)];
    var st' := st.(top := f.(alts := f.alts + [f.cat], cat := Empty));
    StateLength(st);
    EmptyCode();
    OrCode(st);
    var c := Insert(v.code, p, CFAILURE_JUMP, |v.code| + 6);
    HoleSize();
    OneMoreHole(f.alts, f.cat);
    OuterUntouched(tight, st.outer, v.starts, v.starts[v.base + OrLevel(tight) := |c| + 3]);
    OrSpots(st);
    InsertLength(v.code, p, CFAILURE_JUMP, |v.code| + 6);
  }

  lemma {:induction false} OrCode(st: Parse)
    requires st.top.last == Empty
    ensures var f := st.top;
      var p := |OuterCode(st.outer)| + Len(f.done) + HolesLen(f.alts);
      && p <= |StateCode(st)|
      && Insert(StateCode(st), p, CFAILURE_JUMP, |StateCode(st)| + 6) + HOLE
         == StateCode(st.(top := f.(alts := f.alts + [f.cat], cat := Empty)))
  {
    hide OuterCode, HolesCode, HoleCode, Insert, HOLE, Emit, HolesLen, JumpCode;
    var f := st.top;
    EmptyCode();
    HolesLength(f.alts);
    var x := OuterCode(st.outer) + Emit(f.done) + HolesCode(f.alts);
    assert StateCode(st) == x + Emit(f.cat);
    OrInserted(x, f.cat);
    OneMoreHole(f.alts, f.cat);
    assert Insert(StateCode(st), |x|, CFAILURE_JUMP, |StateCode(st)| + 6) + HOLE == x + HoleCode(f.cat);
    assert StateCode(st.(top := f.(alts := f.alts + [f.cat], cat := Empty))) == x + HoleCode(f.cat);
  }

  lemma {:induction false} OrSpots(st: Parse)
    ensures HolesLen(st.top.alts + [st.top.cat]) >= 6
    ensures var f := st.top;
      AllSpots(st.(top := f.(alts := f.alts + [f.cat], cat := Empty))) ==
        AllSpots(st) + [|OuterCode(st.outer)| + Len(f.done) + HolesLen(f.alts + [f.cat]) - 2]
  {
    hide OuterCode, OuterSpots, Spots, HolesLen;
    OneMoreHole(st.top.alts, st.top.cat);
    OneMoreSpot(|OuterCode(st.outer)| + Len(st.top.done), st.top.alts, st.top.cat);
  }

  lemma {:induction false} EmptyCode()
    ensures Emit(Empty) == [] && Len(Empty) == 0
  {
  }

  lemma {:induction false} InsertLength(code: Code, p: nat, op: Byte, addr: int)
    requires p <= |code|
    ensures |Insert(code, p, op, addr)| == |code| + 3
  {
  }

  lemma {:induction false} OneMoreHole(alts: seq<Regex>, a: Regex)
    ensures HolesCode(alts + [a]) == HolesCode(alts) + HoleCode(a)
    ensures HolesLen(alts + [a]) == HolesLen(alts) + Len(a) + 6
  {
    hide HoleCode;
    assert (alts + [a])[..|alts|] == alts;
  }

  lemma {:induction false} OneMoreSpot(from: nat, alts: seq<Regex>, a: Regex)
    ensures from + HolesLen(alts + [a]) - 2 >= 0
    ensures Spots(from, alts + [a]) == Spots(from, alts) + [from + HolesLen(alts + [a]) - 2]
  {
    hide HolesLen;
    OneMoreHole(alts, a);
    assert (alts + [a])[..|alts|] == alts;
    SpotsSize(from, alts + [a]);
  }

  // ---- Groups ------------------------------------------------------------------------------------------------

  /** Entering a group: the operand so far is settled, and the group's code begins. */
  lemma {:induction false} EnterOk(tight: bool, st: Parse, v: Vars, reg: Byte)
    requires Consistent(tight, st, v) && v.level == 4 && |st.outer| < MAX_NESTING - 1 && reg == Register(st)
    ensures var next := st.nextRegister + (if reg == 0 then 0 else 1);
      var st' := Parse(st.outer + [(Settled(st.top, false), reg)], NO_FRAME, next);
      var code := v.code + OpenCode(reg);
      Consistent(tight, st',
        Vars(code, v.starts[v.base + 4 := |v.code|][v.base + 5 := |code|], v.jumps, v.base + 5, 0,
             st'.nextRegister, if reg == 0 then v.opens else v.opens + [reg], v.depth + 1))
  {
    hide OuterCode, FrameCode, HolesLen, OpenCode, StateCode, Len, AllSpots, LevelsOk, OuterLevelsOk, OpenOk,
      FrameLen;
    var outer' := st.outer + [(Settled(st.top, false), reg)];
    var code := v.code + OpenCode(reg);
    StateLength(st);
    LevelsFit(tight, st, v);
    EnterCode(st, reg);
    EnterSpots(st, reg);
    EnterOpens(st, v.opens, v.next, reg);
    EnterLevels(tight, st, v, reg, |code|, v.starts[v.base + 4 := |v.code|][v.base + 5 := |code|]);
  }

  lemma {:induction false} LevelsFit(tight: bool, st: Parse, v: Vars)
    requires Consistent(tight, st, v)
    ensures v.base + 5 <= |v.starts|
  {
    hide OuterCode, HolesLen;
  }

  lemma {:induction false} EnterOpens(st: Parse, opens: seq<Byte>, next: nat, reg: Byte)
    requires OpenOk(st.outer, opens, next) && next == st.nextRegister && reg == Register(st)
    ensures OpenOk(st.outer + [(Settled(st.top, false), reg)], if reg == 0 then opens else opens + [reg],
                   next + if reg == 0 then 0 else 1)
  {
  }

  lemma {:induction false} EnterLevels(tight: bool, st: Parse, v: Vars, reg: Byte, at: nat, starts': seq<nat>)
    requires Consistent(tight, st, v) && v.level == 4 && |st.outer| < MAX_NESTING - 1
    requires |OuterCode(st.outer + [(Settled(st.top, false), reg)])| == at && |starts'| == |v.starts|
    requires forall i :: 0 <= i < |starts'| ==>
      starts'[i] == if i == v.base + 4 then |v.code| else if i == v.base + 5 then at else v.starts[i]
    ensures OuterLevelsOk(tight, st.outer + [(Settled(st.top, false), reg)], starts')
    ensures LevelsOk(tight, NO_FRAME, at, starts', v.base + 5, 0)
  {
    hide OuterCode, FrameCode, HolesLen, StateCode, AllSpots, OpenOk, Len;
    var outer' := st.outer + [(Settled(st.top, false), reg)];
    StateLength(st);
    EmptyCode();
    NoHoles();
    CatLength(st.top.cat, st.top.last);
    forall k | 0 <= k < |outer'|
      ensures Len(outer'[k].0.last) == 0 && LevelsOk(tight, outer'[k].0, |OuterCode(outer'[..k])|, starts', 5 * k, 4)
    {
      assert outer'[..k] == st.outer[..k];
      if k == |st.outer| { assert st.outer[..k] == st.outer; }
    }
  }

  lemma {:induction false} EnterCode(st: Parse, reg: Byte)
    ensures var outer' := st.outer + [(Settled(st.top, false), reg)];
      && OuterCode(outer') == StateCode(st) + OpenCode(reg)
      && forall n :: StateCode(Parse(outer', NO_FRAME, n)) == StateCode(st) + OpenCode(reg)
  {
    hide FrameCode, OpenCode;
    var outer' := st.outer + [(Settled(st.top, false), reg)];
    assert outer'[..|st.outer|] == st.outer;
    SettledSame(st.top, false);
    NoFrameCode();
  }

  lemma {:induction false} NoFrameCode()
    ensures FrameCode(NO_FRAME) == []
  {
    NoHoles();
  }

  lemma {:induction false} EnterSpots(st: Parse, reg: Byte)
    ensures var outer' := st.outer + [(Settled(st.top, false), reg)];
      forall n :: AllSpots(Parse(outer', NO_FRAME, n)) == AllSpots(st)
  {
    hide OuterCode, Spots, Len;
    var outer' := st.outer + [(Settled(st.top, false), reg)];
    assert outer'[..|st.outer|] == st.outer;
    NoHoles();
  }

  /** Leaving a group: it becomes the operand of the frame it was read in. */
  lemma {:induction false} LeaveOk(tight: bool, st: Parse, v: Vars)
    requires Agree(tight, st, v) && st.outer != [] && st.top == Frame(st.top.done, [], Empty, Empty)
    ensures var n := |st.outer| - 1;
      var (g, reg) := st.outer[n];
      var opens := if n < |v.opens| then v.opens[..n] else v.opens;
      && (n < |v.opens| <==> reg != 0) && (n < |v.opens| ==> v.opens[n] == reg && |v.opens| == n + 1)
      && Consistent(tight, st.(outer := st.outer[..n], top := g.(last := Group(reg, st.top.done))),
           v.(code := v.code + (if reg == 0 then [] else [CEND_MEMORY, reg]), base := v.base - 5, level := 4,
              opens := opens, depth := v.depth - 1))
  {
    hide OuterCode, HolesCode, HolesLen, OuterSpots, Spots, StateCode, Emit, Len, AllSpots, LevelsOk, OuterLevelsOk,
      OpenOk;
    var n := |st.outer| - 1;
    LeaveLevels(tight, st.outer, v.starts, Group(st.outer[n].1, st.top.done));
    LeaveOpens(st.outer, v.opens, v.next);
    LeaveCode(st);
    LeaveSpots(st);
  }

  lemma {:induction false} LeaveLevels(tight: bool, outer: seq<(Frame, Byte)>, starts: seq<nat>, r: Regex)
    requires outer != [] && OuterLevelsOk(tight, outer, starts)
    ensures var n := |outer| - 1;
      && Len(outer[n].0.last) == 0 && OuterLevelsOk(tight, outer[..n], starts)
      && LevelsOk(tight, outer[n].0.(last := r), |OuterCode(outer[..n])|, starts, 5 * n, 4)
  {
    hide OuterCode, LevelsOk, Len;
    var n := |outer| - 1;
    NewOperand(tight, outer[n].0, |OuterCode(outer[..n])|, starts, 5 * n, r);
    forall k | 0 <= k < n
      ensures Len(outer[..n][k].0.last) == 0
        && LevelsOk(tight, outer[..n][k].0, |OuterCode(outer[..n][..k])|, starts, 5 * k, 4)
    {
      assert outer[..n][..k] == outer[..k] && outer[..n][k] == outer[k];
    }
  }

  lemma {:induction false} NewOperand(tight: bool, f: Frame, base: nat, starts: seq<nat>, sb: nat, r: Regex)
    requires LevelsOk(tight, f, base, starts, sb, 4) && Len(f.last) == 0
    ensures LevelsOk(tight, f.(last := r), base, starts, sb, 4)
  {
    hide Len, HolesLen;
  }

  lemma {:induction false} LeaveOpens(outer: seq<(Frame, Byte)>, opens: seq<Byte>, next: nat)
    requires outer != [] && OpenOk(outer, opens, next)
    ensures var n := |outer| - 1;
      && (n < |opens| <==> outer[n].1 != 0) && (n < |opens| ==> opens[n] == outer[n].1 && |opens| == n + 1)
      && OpenOk(outer[..n], if n < |opens| then opens[..n] else opens, next)
  {
  }

  lemma {:induction false} LeaveCode(st: Parse)
    requires st.outer != [] && st.top == Frame(st.top.done, [], Empty, Empty)
    requires Len(st.outer[|st.outer| - 1].0.last) == 0
    ensures var n := |st.outer| - 1;
      var (g, reg) := st.outer[n];
      StateCode(st.(outer := st.outer[..n], top := g.(last := Group(reg, st.top.done))))
      == StateCode(st) + (if reg == 0 then [] else [CEND_MEMORY, reg])
  {
    hide HolesCode, OuterCode, Emit, OpenCode;
    var n := |st.outer| - 1;
    var (g, reg) := st.outer[n];
    var e := Emit(st.top.done);
    NoHoles();
    EmptyCode();
    assert FrameCode(st.top) == e;
    assert Emit(g.last) == [];
    OuterSplit(st.outer);
    var x := Emit(g.done) + HolesCode(g.alts) + Emit(g.cat);
    assert FrameCode(g) == x;
    GroupCode(reg, st.top.done);
    assert OuterCode(st.outer[..n]) + (x + Emit(Group(reg, st.top.done)))
      == OuterCode(st.outer[..n]) + x + OpenCode(reg) + e + (if reg == 0 then [] else [CEND_MEMORY, reg]);
  }

  lemma {:induction false} OuterSplit(outer: seq<(Frame, Byte)>)
    requires outer != []
    ensures var n := |outer| - 1;
      OuterCode(outer) == OuterCode(outer[..n]) + FrameCode(outer[n].0) + OpenCode(outer[n].1)
  {
    hide FrameCode, OpenCode;
  }

  lemma {:induction false} GroupCode(reg: Byte, r: Regex)
    ensures Emit(Group(reg, r)) == OpenCode(reg) + Emit(r) + (if reg == 0 then [] else [CEND_MEMORY, reg])
  {
  }

  lemma {:induction false} LeaveSpots(st: Parse)
    requires st.outer != [] && st.top.alts == []
    ensures var n := |st.outer| - 1;
      var (g, reg) := st.outer[n];
      AllSpots(st.(outer := st.outer[..n], top := g.(last := Group(reg, st.top.done)))) == AllSpots(st)
  {
    hide OuterCode, Spots, Len;
    NoHoles();
  }
}
